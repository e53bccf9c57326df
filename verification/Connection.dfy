/** The connection handler itself: socket, buffers and the keep-alive loop. */
module Connection {
  import opened Prelude
  import opened Text
  import opened Numerals
  import opened HeaderBlock
  import opened HeaderScan
  import opened Buffers
  import opened RequestHead
  import opened Response
  import opened KeepAlive
  import opened Independence
  import opened ReadMemory

  /** A socket: the bytes still to arrive, how partial reads will cut them, and the bytes sent so far. */
  class Socket {
    const schedule: Schedule
    var unread: string
    var turn: nat
    var sent: string

    constructor (stream: string, schedule: Schedule)
      ensures this.schedule == schedule && unread == stream && turn == 0 && sent == ""
    {
      this.schedule := schedule;
      unread, turn, sent := stream, 0, "";
    }

    /** `async_read_some` with room for `room` bytes; `eof` stands for the exception. */
    method ReadSome(room: nat) returns (eof: bool, s: string)
      requires room > 0
      modifies this`unread, this`turn
      ensures eof == (old(unread) == "")
      ensures eof ==> unread == old(unread) && turn == old(turn)
      ensures !eof ==> var n := ReadSize(schedule(old(turn)), room, |old(unread)|);
                       s == old(unread)[..n] && unread == old(unread)[n..] && turn == old(turn) + 1
    {
      if unread == "" {
        return true, "";
      }
      var n := ReadSize(schedule(turn), room, |unread|);
      s := unread[..n];
      unread, turn := unread[n..], turn + 1;
      eof := false;
    }

    /** `async_read` of exactly `n` bytes. */
    method ReadExactly(n: nat) returns (eof: bool, s: string)
      modifies this`unread
      ensures eof == (|old(unread)| < n)
      ensures !eof ==> s == old(unread)[..n] && unread == old(unread)[n..]
    {
      if |unread| < n {
        unread := "";
        return true, "";
      }
      s := unread[..n];
      unread := unread[n..];
      eof := false;
    }

    method Write(s: string)
      modifies this`sent
      ensures sent == old(sent) + s
    {
      sent := sent + s;
    }
  }

  /** A response body is a string of less than 2^64 bytes. */
  type SizedReply = r: Reply | |r.body| < U64 witness Reply(200, NoPreset, [], "")

  /** The application: a response for every request, and the cached date at each response. */
  datatype App = App(respond: (nat, Request, string) -> SizedReply, date: nat -> string)

  function Closing(r: SizedReply): SizedReply {
    r.(headers := r.headers + [Field("Connection", "close")])
  }

  const TIMED_OUT: SizedReply := Closing(Reply(408, TextPlain, [], "Request Timeout"))

  const TOO_LARGE: SizedReply := Closing(Reply(413, TextPlain, [], "Payload Too Large"))

  /** The response to an event of the HTTP loop; a hand-off writes nothing itself. */
  function Replies(app: App, event: Event, k: nat): seq<SizedReply> {
    match event
    case Dispatched(req, body, close) =>
      var r := app.respond(k, req, body);
      [if close then Closing(r) else r]
    case TooLarge(_) => [TOO_LARGE]
    case TimedOut(_) => [TIMED_OUT]
    case HandedOff(_) => []
  }

  /** The bytes written for the event with number `k`. */
  function Sent(app: App, event: Event, k: nat): string {
    var rs := Replies(app, event, k);
    if rs == [] then "" else Serialized(rs[0], app.date(k))
  }

  function Output(app: App, events: seq<Event>, k: nat): string {
    if events == [] then "" else Sent(app, events[0], k) + Output(app, events[1..], k + 1)
  }

  lemma {:induction false} OutputSnoc(app: App, events: seq<Event>, e: Event, k: nat)
    ensures Output(app, events + [e], k) == Output(app, events, k) + Sent(app, e, k + |events|)
  {
    hide Sent;
    if events == [] {
      assert [] + [e] == [e];
    } else {
      OutputSnoc(app, events[1..], e, k + 1);
      assert (events + [e])[1..] == events[1..] + [e];
    }
  }

  ghost function StateOf(socket: Socket, buffer: ReadBuffer): Conn
    requires buffer.Valid()
    reads socket, buffer, buffer.data
  {
    Conn(buffer.Contents(), buffer.data.Length, socket.unread, socket.turn)
  }

  /** Where the first blank line can be when everything before `old_` has been searched already. */
  lemma ScanResumes(s: string, searched: nat)
    requires searched <= |s| && HeaderEnd(s[..searched]) == 0
    ensures var from := if searched > 3 then searched - 3 else 0;
            HeaderEnd(s) == if FindTerm(s, from) < |s| then FindTerm(s, from) + 4 else 0
  {
    var from := if searched > 3 then searched - 3 else 0;
    forall j: nat | j < from ensures !TermAt(s, j) {
      assert !TermAt(s[..searched], j);
    }
  }

  /** Room for 4096 bytes, and one partial read into it. */
  method ReadMore(socket: Socket, buffer: ReadBuffer) returns (eof: bool)
    requires buffer.Valid()
    modifies socket`unread, socket`turn, buffer, buffer.data
    ensures buffer.Valid() && (buffer.data == old(buffer.data) || fresh(buffer.data))
    ensures eof == (old(socket.unread) == "")
    ensures !eof ==> StateOf(socket, buffer) == Received(old(StateOf(socket, buffer)), socket.schedule)
    ensures !eof ==> buffer.Contents()[..old(buffer.size)] == old(buffer.Contents())
    ensures buffer.data.Length == Grown(old(buffer.data.Length), old(buffer.size), READ_SPACE)
  {
    hide Grown, ReadSize;
    ghost var before := buffer.Contents();
    buffer.EnsureWrite(READ_SPACE);
    var s;
    eof, s := socket.ReadSome(buffer.data.Length - buffer.size);
    if !eof {
      buffer.Receive(s);
      assert (before + s)[..|before|] == before;
    }
  }

  lemma FillUnfold(max: nat, schedule: Schedule, c: Conn)
    requires |c.buf| <= c.capacity
    ensures FillHead(max, schedule, c)
         == if |c.buf| >= max || c.unread == "" then (0, c)
            else
              var d := Received(c, schedule);
              var e := HeaderEnd(d.buf);
              if e > 0 then (e, d) else FillHead(max, schedule, d)
  {}

  /** `read_headers`: 0 also stands for the end of the stream. */
  method ReadHeaders(socket: Socket, buffer: ReadBuffer, maxSize: nat) returns (end: nat)
    requires buffer.Valid()
    modifies socket`unread, socket`turn, buffer, buffer.data
    ensures buffer.Valid() && (buffer.data == old(buffer.data) || fresh(buffer.data))
    ensures end == ReadHead(maxSize, socket.schedule, old(StateOf(socket, buffer))).0
    ensures end > 0 ==> StateOf(socket, buffer) == ReadHead(maxSize, socket.schedule, old(StateOf(socket, buffer))).1
    ensures end == 0 ==>
              buffer.data.Length
              == SearchCap(maxSize, ReadHead(maxSize, socket.schedule, old(StateOf(socket, buffer))).1)
    ensures end <= buffer.size
  {
    hide HeaderEnd, FindTerm, FillHead, Received, TermAt, Grown;
    ghost var start := StateOf(socket, buffer);
    var scanStart := buffer.size;
    ScanResumes(buffer.Contents(), 0);
    if buffer.size != 0 {
      end := FindHeaderEnd(buffer.data, buffer.size, 0);
      if end > 0 {
        return;
      }
    }
    while true
      invariant buffer.Valid() && (buffer.data == old(buffer.data) || fresh(buffer.data))
      invariant scanStart == buffer.size && HeaderEnd(buffer.Contents()) == 0
      invariant FillHead(maxSize, socket.schedule, start)
             == FillHead(maxSize, socket.schedule, StateOf(socket, buffer))
      decreases |socket.unread|
    {
      FillUnfold(maxSize, socket.schedule, StateOf(socket, buffer));
      if buffer.size >= maxSize {
        return 0;
      }
      var eof := ReadMore(socket, buffer);
      if eof {
        return 0;
      }
      end := FindHeaderEnd(buffer.data, buffer.size, scanStart);
      ScanResumes(buffer.Contents(), scanStart);
      if end > 0 {
        return;
      }
      scanStart := buffer.size;
    }
  }

  /** Completes the body with one exact read of what is missing. */
  method CompleteBody(socket: Socket, buffer: ReadBuffer, total: nat) returns (eof: bool)
    requires buffer.Valid()
    modifies socket`unread, buffer, buffer.data
    ensures buffer.Valid() && (buffer.data == old(buffer.data) || fresh(buffer.data))
    ensures eof == ReadBody(old(StateOf(socket, buffer)), total).None?
    ensures !eof ==> StateOf(socket, buffer) == ReadBody(old(StateOf(socket, buffer)), total).value
    ensures buffer.data.Length == BodyCap(old(buffer.data.Length), total)
  {
    var already := buffer.size;
    var remaining := if total > already then total - already else 0;
    eof := false;
    if remaining > 0 {
      buffer.EnsureWrite(remaining);
      var s;
      eof, s := socket.ReadExactly(remaining);
      if !eof {
        buffer.Receive(s);
      }
    }
  }

  /** Serializes into the reusable output buffer and sends it. */
  method SendReply(socket: Socket, out: WriteBuffer, r: SizedReply, date: string)
    requires out.Valid()
    modifies socket`sent, out, out.data
    ensures out.Valid() && (out.data == old(out.data) || fresh(out.data))
    ensures socket.sent == old(socket.sent) + Serialized(r, date)
  {
    hide Serialized;
    out.Reset();
    SerializeInto(r, date, out);
    assert "" + Serialized(r, date) == Serialized(r, date);
    socket.Write(out.data[..out.size]);
  }

  /** Drops a finished request from the buffer. */
  method DropRequest(socket: Socket, buffer: ReadBuffer, consumed: nat)
    requires buffer.Valid()
    modifies buffer`size, buffer.data
    ensures buffer.Valid()
    ensures buffer.data.Length == old(buffer.data.Length)
    ensures StateOf(socket, buffer)
         == old(StateOf(socket, buffer)).(buf := Dropped(old(buffer.Contents()), consumed))
  {
    if consumed >= buffer.size {
      buffer.Reset();
    } else {
      buffer.ConsumeFront(consumed);
    }
  }

  /** The decisions between the head and the body, in the order in which they are made. */
  method Decide(cfg: Config, req: Request, count: nat) returns (v: Verdict)
    ensures v == Judge(cfg, req, count)
  {
    if req.method_ == "" {
      return NoRequest;
    }
    if HandsOff(cfg, req) {
      return HandOff;
    }
    var close := Closes(cfg, req, count);
    var cl := FindHeaderCi(req.headers, "content-length");
    if cl == None {
      return Serve(close, 0);
    }
    var n := ParseU64(cl.value);
    if n == None || n.value > cfg.maxBody {
      return Refuse;
    }
    return Serve(close, n.value);
  }

  /** Body, dispatch, response, and the request dropped; a 408 response when the stream ends inside the body. */
  method ServeBody(app: App, socket: Socket, buffer: ReadBuffer, out: WriteBuffer,
                   req: Request, end: nat, close: bool, length: nat, count: nat) returns (event: Event)
    requires buffer.Valid() && out.Valid() && buffer.data != out.data && end <= buffer.size
    modifies socket`unread, socket`sent, buffer, buffer.data, out, out.data
    ensures buffer.Valid() && (buffer.data == old(buffer.data) || fresh(buffer.data))
    ensures out.Valid() && (out.data == old(out.data) || fresh(out.data)) && buffer.data != out.data
    ensures var r := ReadBody(old(StateOf(socket, buffer)), end + length);
            if r.None? then event == TimedOut(req)
            else
              && event == Dispatched(req, r.value.buf[end..end + length], close)
              && StateOf(socket, buffer) == r.value.(buf := Dropped(r.value.buf, end + length))
    ensures socket.sent == old(socket.sent) + Sent(app, event, count)
    ensures buffer.data.Length == BodyCap(old(buffer.data.Length), end + length)
  {
    hide ReadBody, Dropped, Closing, Serialized, BodyCap;
    var eof := CompleteBody(socket, buffer, end + length);
    if eof {
      event := TimedOut(req);
      SendReply(socket, out, TIMED_OUT, app.date(count));
    } else {
      var body := buffer.data[end..end + length];
      ghost var all := buffer.Contents();
      assert end + length <= |all| && forall j :: end <= j < end + length ==> body[j - end] == all[j];
      assert body == all[end..end + length];
      var reply := app.respond(count, req, body);
      if close {
        reply := Closing(reply);
      }
      SendReply(socket, out, reply, app.date(count));
      event := Dispatched(req, body, close);
      DropRequest(socket, buffer, end + length);
    }
  }

  /** Reads and parses the next head; the method is empty when there is none. */
  method NextHead(cfg: Config, socket: Socket, buffer: ReadBuffer) returns (end: nat, req: Request)
    requires buffer.Valid()
    modifies socket`unread, socket`turn, buffer, buffer.data
    ensures buffer.Valid() && (buffer.data == old(buffer.data) || fresh(buffer.data)) && end <= buffer.size
    ensures var r := ReadHead(cfg.maxHeader, socket.schedule, old(StateOf(socket, buffer)));
            && end == r.0 && (end > 0 ==> StateOf(socket, buffer) == r.1 && req == ParsedHead(r.1.buf[..end]))
            && (end == 0 ==> buffer.data.Length == SearchCap(cfg.maxHeader, r.1))
  {
    hide ReadHead, ParsedHead, SearchCap;
    end := ReadHeaders(socket, buffer, cfg.maxHeader);
    req := NO_REQUEST;
    if end > 0 {
      req := ParseHeaders(buffer.data[..end]);
      assert buffer.data[..end] == buffer.Contents()[..end];
    }
  }

  function SentFor(app: App, event: Option<Event>, k: nat): string {
    if event.Some? then Sent(app, event.value, k) else ""
  }

  /** One round of the keep-alive loop, after `count` requests. */
  method ServeOne(cfg: Config, app: App, socket: Socket, buffer: ReadBuffer, out: WriteBuffer, count: nat)
    returns (event: Option<Event>, goesOn: bool)
    requires buffer.Valid() && out.Valid() && buffer.data != out.data
    modifies socket`unread, socket`turn, socket`sent, buffer, buffer.data, out, out.data
    ensures buffer.Valid() && (buffer.data == old(buffer.data) || fresh(buffer.data))
    ensures out.Valid() && (out.data == old(out.data) || fresh(out.data)) && buffer.data != out.data
    ensures var r := RoundOf(cfg, socket.schedule, old(StateOf(socket, buffer)), count);
            event == r.event && goesOn == r.goesOn && (goesOn ==> StateOf(socket, buffer) == r.after)
    ensures socket.sent == old(socket.sent) + SentFor(app, event, count)
    ensures buffer.data.Length == RoundCap(cfg, socket.schedule, old(StateOf(socket, buffer)), count)
  {
    hide ReadHead, ReadBody, Judge, ParsedHead, Dropped, Closing, Serialized, SearchCap, BodyCap;
    event, goesOn := None, false;
    var end, req := NextHead(cfg, socket, buffer);
    if end > 0 {
      var v := Decide(cfg, req, count + 1);
      match v {
        case NoRequest =>
        case HandOff =>
          event := Some(HandedOff(req));
        case Refuse =>
          event := Some(TooLarge(req));
          SendReply(socket, out, TOO_LARGE, app.date(count));
        case Serve(close, length) =>
          var e := ServeBody(app, socket, buffer, out, req, end, close, length, count);
          event, goesOn := Some(e), e.Dispatched? && !close;
      }
    }
  }

  /** A fresh connection: an empty read buffer of 8192 bytes and an output buffer of 4096. */
  method Open(socket: Socket) returns (buffer: ReadBuffer, out: WriteBuffer)
    ensures fresh(buffer) && fresh(buffer.data) && buffer.Valid()
    ensures fresh(out) && fresh(out.data) && out.Valid() && out.data != buffer.data
    ensures StateOf(socket, buffer) == Conn("", 8192, socket.unread, socket.turn)
  {
    buffer := new ReadBuffer(8192);
    out := new WriteBuffer(4096);
  }

  /** What is still to be dispatched when the loop goes on. */
  function Rest(cfg: Config, schedule: Schedule, c: Conn, count: nat, goesOn: bool): seq<Event>
    requires |c.buf| <= c.capacity
  {
    if goesOn then Events(cfg, schedule, c, count) else []
  }

  function Extended(done: seq<Event>, event: Option<Event>): seq<Event> {
    if event.Some? then done + [event.value] else done
  }

  lemma Counted(done: seq<Event>, event: Option<Event>)
    ensures event.Some? ==> |Extended(done, event)| == |done| + 1
  {}

  lemma OneRound(cfg: Config, schedule: Schedule, c: Conn, done: seq<Event>, r: Round, after: Conn)
    requires |c.buf| <= c.capacity && |after.buf| <= after.capacity
    requires r == RoundOf(cfg, schedule, c, |done|) && (r.goesOn ==> after == r.after)
    ensures done + Rest(cfg, schedule, c, |done|, true)
         == Extended(done, r.event) + Rest(cfg, schedule, after, |Extended(done, r.event)|, r.goesOn)
  {
    hide RoundOf;
  }

  lemma RestOfAll(cfg: Config, schedule: Schedule, c: Conn, count: nat)
    requires |c.buf| <= c.capacity
    ensures Rest(cfg, schedule, c, count, true) == Events(cfg, schedule, c, count)
    ensures Rest(cfg, schedule, c, count, false) == []
  {}

  lemma OneReply(app: App, was: string, done: seq<Event>, event: Option<Event>)
    ensures was + Output(app, done, 0) + SentFor(app, event, |done|) == was + Output(app, Extended(done, event), 0)
  {
    hide Output, Sent;
    if event.Some? {
      OutputSnoc(app, done, event.value, 0);
    }
  }

  lemma NothingSent(app: App, was: string)
    ensures was + Output(app, [], 0) == was
  {}

  /**
   `handle_connection`, with timers that never fire: reads heads and bodies, dispatches, answers, and
   drops what is done, until a request closes the connection or the stream ends. `capacity` is what the
   read buffer has grown to.
   */
  method HandleConnection(cfg: Config, app: App, socket: Socket) returns (events: seq<Event>, capacity: nat)
    modifies socket`unread, socket`turn, socket`sent
    ensures events == Events(cfg, socket.schedule, Conn("", 8192, old(socket.unread), old(socket.turn)), 0)
    ensures socket.sent == old(socket.sent) + Output(app, events, 0)
    ensures capacity
         == PeakCapacity(cfg, socket.schedule, Conn("", 8192, old(socket.unread), old(socket.turn)), 0)
  {
    hide PeakCapacity, RoundCap, RoundOf, Events, Output, SentFor, Rest, Extended, Pending;
    ghost var was := socket.sent;
    NothingSent(app, was);
    var buffer, out := Open(socket);
    var keepAlive := true;
    events := [];
    ghost var all := Events(cfg, socket.schedule, StateOf(socket, buffer), 0);
    RestOfAll(cfg, socket.schedule, StateOf(socket, buffer), 0);
    assert [] + all == all;
    ghost var peak := PeakCapacity(cfg, socket.schedule, StateOf(socket, buffer), 0);
    while keepAlive
      invariant buffer.Valid() && fresh(buffer) && fresh(buffer.data)
      invariant out.Valid() && fresh(out) && fresh(out.data) && out.data != buffer.data
      invariant socket.sent == was + Output(app, events, 0)
      invariant all == events + Rest(cfg, socket.schedule, StateOf(socket, buffer), |events|, keepAlive)
      invariant peak == if keepAlive then PeakCapacity(cfg, socket.schedule, StateOf(socket, buffer), |events|)
                        else buffer.data.Length
      decreases keepAlive, Pending(StateOf(socket, buffer))
    {
      ghost var c, done := StateOf(socket, buffer), events;
      var event;
      event, keepAlive := ServeOne(cfg, app, socket, buffer, out, |events|);
      PeakIsLast(cfg, socket.schedule, c, |done|);
      events := Extended(events, event);
      assert keepAlive ==> |events| == |done| + 1 by { Counted(done, event); }
      OneRound(cfg, socket.schedule, c, done, RoundOf(cfg, socket.schedule, c, |done|), StateOf(socket, buffer));
      OneReply(app, was, done, event);
    }
    RestOfAll(cfg, socket.schedule, StateOf(socket, buffer), |events|);
    assert events + [] == events;
    capacity := buffer.data.Length;
  }
}
