/**
 The keep-alive loop of a connection as functions: what it dispatches for a given way of cutting the
 stream into reads, and what it ought to dispatch for the stream as a whole.
 */
module KeepAlive {
  import opened Prelude
  import opened Text
  import opened Buffers
  import opened Numerals
  import opened HeaderBlock
  import opened RequestHead

  /**
   Server settings; the paths whose requests leave the HTTP loop; and, per request on this connection,
   whether the server is found to be shutting down.
   */
  datatype Config = Config(maxHeader: nat, maxBody: nat, maxKeepAlive: int,
                           ws: set<string>, sse: set<string>, stream: set<string>,
                           stopping: nat -> bool)

  datatype Event =
    | Dispatched(request: Request, body: string, close: bool)
    | TooLarge(request: Request)
      /** The stream ends inside the body: the read waits on for its timer, and the request is given up. */
    | TimedOut(request: Request)
    | HandedOff(request: Request)

  predicate HeaderEquals(req: Request, name: string, value: string) {
    match Lookup(req.headers, name)
    case None => false
    case Some(v) => SameIgnoringCase(v, value)
  }

  predicate IsWsUpgrade(req: Request) {
    HeaderEquals(req, "upgrade", "websocket")
    && Lookup(req.headers, "sec-websocket-key").Some?
    && Lookup(req.headers, "sec-websocket-key").value != ""
  }

  /** WebSocket, server-sent event and chunked routes take the connection over. */
  predicate HandsOff(cfg: Config, req: Request) {
    || (cfg.ws != {} && IsWsUpgrade(req) && req.path in cfg.ws)
    || (cfg.sse != {} && req.method_ == "GET" && req.path in cfg.sse)
    || (cfg.stream != {} && req.path in cfg.stream)
  }

  predicate Closes(cfg: Config, req: Request, count: nat) {
    HeaderEquals(req, "connection", "close")
    || (cfg.maxKeepAlive > 0 && count >= cfg.maxKeepAlive)
    || cfg.stopping(count)
  }

  /** What is decided once the head of the next request is known. */
  datatype Verdict = NoRequest | HandOff | Refuse | Serve(close: bool, length: nat)

  /** `count` is the number of this request on the connection, starting from 1. */
  function Judge(cfg: Config, req: Request, count: nat): Verdict {
    if req.method_ == "" then NoRequest
    else if HandsOff(cfg, req) then HandOff
    else
      var close := Closes(cfg, req, count);
      match Lookup(req.headers, "content-length")
      case None => Serve(close, 0)
      case Some(v) =>
        match ParseU64(v)
        case None => Refuse
        case Some(n) => if n > cfg.maxBody then Refuse else Serve(close, n)
  }

  /**
   The requests of a whole stream, by recursion on the stream: a head up to its first blank line, then as
   many body bytes as it announces, then the rest.
   */
  function Reference(cfg: Config, s: string, count: nat): seq<Event>
    decreases |s|
  {
    var e := HeaderEnd(s);
    if e == 0 then []
    else
      var req := ParsedHead(s[..e]);
      match Judge(cfg, req, count + 1)
      case NoRequest => []
      case HandOff => [HandedOff(req)]
      case Refuse => [TooLarge(req)]
      case Serve(close, n) =>
        if |s| < e + n then [TimedOut(req)]
        else [Dispatched(req, s[e..e + n], close)] + (if close then [] else Reference(cfg, s[e + n..], count + 1))
  }

  // The loop over a fragmented stream

  /** How many bytes the k-th partial read would like to deliver. */
  type Schedule = nat -> nat

  /** Buffered bytes, buffer capacity, bytes still to arrive, partial reads so far. */
  datatype Conn = Conn(buf: string, capacity: nat, unread: string, turn: nat)

  function Stream(c: Conn): string {
    c.buf + c.unread
  }

  /** A partial read delivers at least one byte, and no more than there is room for or left to arrive. */
  function ReadSize(want: nat, room: nat, left: nat): (n: nat)
    requires room > 0 && left > 0
    ensures 1 <= n <= room && n <= left
  {
    var most := if room < left then room else left;
    if want < 1 then 1 else if want > most then most else want
  }

  const READ_SPACE: nat := 4096

  /** One partial read of the head: make room, receive. */
  function Received(c: Conn, schedule: Schedule): (d: Conn)
    requires |c.buf| <= c.capacity && c.unread != ""
    ensures |c.buf| < |d.buf| <= d.capacity && Stream(d) == Stream(c)
    ensures |d.unread| < |c.unread| && |d.buf| + |d.unread| == |c.buf| + |c.unread|
  {
    var capacity := Grown(c.capacity, |c.buf|, READ_SPACE);
    var n := ReadSize(schedule(c.turn), capacity - |c.buf|, |c.unread|);
    assert c.unread == c.unread[..n] + c.unread[n..];
    Conn(c.buf + c.unread[..n], capacity, c.unread[n..], c.turn + 1)
  }

  /** Reads until the head is complete: its end, or 0 at end of stream or once `max` bytes are buffered. */
  function FillHead(max: nat, schedule: Schedule, c: Conn): (r: (nat, Conn))
    requires |c.buf| <= c.capacity
    ensures |r.1.buf| <= r.1.capacity && |r.1.buf| + |r.1.unread| == |c.buf| + |c.unread|
    ensures r.0 > 0 ==> r.0 == HeaderEnd(r.1.buf)
    decreases |c.unread|
  {
    if |c.buf| >= max || c.unread == "" then (0, c)
    else
      var d := Received(c, schedule);
      var e := HeaderEnd(d.buf);
      if e > 0 then (e, d) else FillHead(max, schedule, d)
  }

  /** A head that is buffered already is not held against the size limit. */
  function ReadHead(max: nat, schedule: Schedule, c: Conn): (r: (nat, Conn))
    requires |c.buf| <= c.capacity
    ensures |r.1.buf| <= r.1.capacity && |r.1.buf| + |r.1.unread| == |c.buf| + |c.unread|
    ensures r.0 > 0 ==> r.0 == HeaderEnd(r.1.buf)
  {
    var e := HeaderEnd(c.buf);
    if e > 0 then (e, c) else FillHead(max, schedule, c)
  }

  /** The body is completed by one exact read; `None` when the stream ends first. */
  function ReadBody(c: Conn, total: nat): (r: Option<Conn>)
    requires |c.buf| <= c.capacity
    ensures r.Some? ==> |r.value.buf| <= r.value.capacity && |r.value.buf| >= total
    ensures r.Some? ==> |r.value.buf| + |r.value.unread| == |c.buf| + |c.unread|
  {
    if total <= |c.buf| then Some(c)
    else
      var n := total - |c.buf|;
      if |c.unread| < n then None
      else Some(Conn(c.buf + c.unread[..n], Grown(c.capacity, |c.buf|, n), c.unread[n..], c.turn))
  }

  function Pending(c: Conn): nat {
    |c.buf| + |c.unread|
  }

  /** One round of the loop: at most one event, whether the loop goes on, and with which connection. */
  datatype Round = Round(event: Option<Event>, goesOn: bool, after: Conn)

  function RoundOf(cfg: Config, schedule: Schedule, c: Conn, count: nat): (r: Round)
    requires |c.buf| <= c.capacity
    ensures r.goesOn ==> r.event.Some? && |r.after.buf| <= r.after.capacity && Pending(r.after) < Pending(c)
  {
    var (e, d) := ReadHead(cfg.maxHeader, schedule, c);
    if e == 0 then Round(None, false, d)
    else
      var req := ParsedHead(d.buf[..e]);
      match Judge(cfg, req, count + 1)
      case NoRequest => Round(None, false, d)
      case HandOff => Round(Some(HandedOff(req)), false, d)
      case Refuse => Round(Some(TooLarge(req)), false, d)
      case Serve(close, n) =>
        match ReadBody(d, e + n)
        case None => Round(Some(TimedOut(req)), false, d)
        case Some(b) =>
          Round(Some(Dispatched(req, b.buf[e..e + n], close)), !close, b.(buf := Dropped(b.buf, e + n)))
  }

  /** All that one connection dispatches, for one way of cutting its stream into reads. */
  function Events(cfg: Config, schedule: Schedule, c: Conn, count: nat): seq<Event>
    requires |c.buf| <= c.capacity
    decreases Pending(c)
  {
    var r := RoundOf(cfg, schedule, c, count);
    if r.event.None? then []
    else [r.event.value] + (if r.goesOn then Events(cfg, schedule, r.after, count + 1) else [])
  }

  function Start(s: string): Conn {
    Conn("", 8192, s, 0)
  }

  // What every way of reading has in common

  lemma {:induction false} FillHeadFinds(max: nat, schedule: Schedule, c: Conn)
    requires |c.buf| <= c.capacity && HeaderEnd(c.buf) == 0
    ensures var (r, d) := FillHead(max, schedule, c);
            && Stream(d) == Stream(c)
            && (r == 0 || r == HeaderEnd(Stream(c)))
            && (HeaderEnd(Stream(c)) <= max ==> r == HeaderEnd(Stream(c)))
    decreases |c.unread|
  {
    HeaderEndPrefix(c.buf, c.unread);
    if |c.buf| < max && c.unread != "" {
      var d := Received(c, schedule);
      HeaderEndPrefix(d.buf, d.unread);
      if HeaderEnd(d.buf) == 0 {
        FillHeadFinds(max, schedule, d);
      }
    } else if c.unread == "" {
      assert c.buf + c.unread == c.buf;
    }
  }

  /** However the stream is cut, a head is found at its first blank line or not at all. */
  lemma ReadHeadFinds(max: nat, schedule: Schedule, c: Conn)
    requires |c.buf| <= c.capacity
    ensures var (r, d) := ReadHead(max, schedule, c);
            && Stream(d) == Stream(c)
            && (r == 0 || r == HeaderEnd(Stream(c)))
            && (HeaderEnd(Stream(c)) <= max ==> r == HeaderEnd(Stream(c)))
            && (r > 0 ==> d.buf[..r] == Stream(c)[..r])
  {
    HeaderEndPrefix(c.buf, c.unread);
    if HeaderEnd(c.buf) == 0 {
      FillHeadFinds(max, schedule, c);
    }
  }
}
