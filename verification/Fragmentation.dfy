/** What a connection dispatches depends on its stream, not on how the stream was cut into reads. */
module Fragmentation {
  import opened Prelude
  import opened Text
  import opened Buffers
  import opened RequestHead
  import opened KeepAlive

  /**
   Every head that is answered, up to the request that closes the connection, ends within the header
   limit.
   */
  predicate WithinLimit(cfg: Config, s: string, count: nat)
    decreases |s|
  {
    Reference(cfg, s, count) != [] ==>
      var e := HeaderEnd(s);
      && e <= cfg.maxHeader
      && match Judge(cfg, ParsedHead(s[..e]), count + 1)
         case Serve(close, n) => close || |s| < e + n || WithinLimit(cfg, s[e + n..], count + 1)
         case _ => true
  }

  /** Once the head is known, both loops see the same bytes. */
  lemma BodySlices(s: string, d: Conn, e: nat, n: nat)
    requires Stream(d) == s && e <= |d.buf| <= d.capacity
    ensures ReadBody(d, e + n).None? <==> |s| < e + n
    ensures ReadBody(d, e + n).Some? ==>
              && ReadBody(d, e + n).value.buf[e..e + n] == s[e..e + n]
              && var b := ReadBody(d, e + n).value;
                 Stream(b.(buf := Dropped(b.buf, e + n))) == s[e + n..] && |Dropped(b.buf, e + n)| <= |d.buf| - e
  {
    var r := ReadBody(d, e + n);
    if r.Some? {
      var b := r.value;
      assert Stream(b) == s;
      assert Dropped(b.buf, e + n) == b.buf[e + n..];
    }
  }

  /** The verdict on the first request of a stream. */
  function First(cfg: Config, s: string, count: nat): Verdict {
    if HeaderEnd(s) == 0 then NoRequest else Judge(cfg, ParsedHead(s[..HeaderEnd(s)]), count + 1)
  }

  /** The stream behind its first request. */
  function Behind(s: string, n: nat): string
    requires HeaderEnd(s) + n <= |s|
  {
    s[HeaderEnd(s) + n..]
  }

  /** The step both loops take: the head is found, the request served, and the loop goes on. */
  predicate GoesOn(cfg: Config, s: string, count: nat) {
    var v := First(cfg, s, count);
    HeaderEnd(s) > 0 && v.Serve? && !v.close && HeaderEnd(s) + v.length <= |s|
  }

  function ServedFirst(cfg: Config, s: string, count: nat): Event
    requires GoesOn(cfg, s, count)
  {
    var e := HeaderEnd(s);
    Dispatched(ParsedHead(s[..e]), s[e..e + First(cfg, s, count).length], false)
  }

  lemma ReferenceUnfold(cfg: Config, s: string, count: nat, e: nat, req: Request)
    requires HeaderEnd(s) == e > 0 && req == ParsedHead(s[..e])
    ensures Reference(cfg, s, count)
         == match Judge(cfg, req, count + 1)
            case NoRequest => []
            case HandOff => [HandedOff(req)]
            case Refuse => [TooLarge(req)]
            case Serve(close, n) =>
              if |s| < e + n then [TimedOut(req)]
              else [Dispatched(req, s[e..e + n], close)]
                   + (if close then [] else Reference(cfg, s[e + n..], count + 1))
  {
    hide HeaderEnd, Judge, ParsedHead;
  }

  lemma WithinUnfold(cfg: Config, s: string, count: nat, v: Verdict)
    requires Reference(cfg, s, count) != [] && HeaderEnd(s) > 0
    requires v == Judge(cfg, ParsedHead(s[..HeaderEnd(s)]), count + 1) && v.Serve? && !v.close
    requires HeaderEnd(s) + v.length <= |s|
    ensures WithinLimit(cfg, s, count)
       <==> HeaderEnd(s) <= cfg.maxHeader && WithinLimit(cfg, s[HeaderEnd(s) + v.length..], count + 1)
  {
    hide Reference, Judge, ParsedHead, HeaderEnd;
  }

  lemma ReferenceStep(cfg: Config, s: string, count: nat)
    requires GoesOn(cfg, s, count)
    ensures var rest := Behind(s, First(cfg, s, count).length);
            && Reference(cfg, s, count) == [ServedFirst(cfg, s, count)] + Reference(cfg, rest, count + 1)
            && (WithinLimit(cfg, s, count)
                <==> HeaderEnd(s) <= cfg.maxHeader && WithinLimit(cfg, rest, count + 1))
  {
    hide Judge, ParsedHead, HeaderEnd, Reference, WithinLimit;
    ReferenceUnfold(cfg, s, count, HeaderEnd(s), ParsedHead(s[..HeaderEnd(s)]));
    WithinUnfold(cfg, s, count, First(cfg, s, count));
  }

  lemma EventsUnfold(cfg: Config, schedule: Schedule, c: Conn, count: nat, e: nat, d: Conn, req: Request)
    requires |c.buf| <= c.capacity && e > 0
    requires ReadHead(cfg.maxHeader, schedule, c) == (e, d) && req == ParsedHead(d.buf[..e])
    ensures Events(cfg, schedule, c, count)
         == match Judge(cfg, req, count + 1)
            case NoRequest => []
            case HandOff => [HandedOff(req)]
            case Refuse => [TooLarge(req)]
            case Serve(close, n) =>
              match ReadBody(d, e + n)
              case None => [TimedOut(req)]
              case Some(b) =>
                [Dispatched(req, b.buf[e..e + n], close)]
                + (if close then []
                   else Events(cfg, schedule, b.(buf := Dropped(b.buf, e + n)), count + 1))
  {
    hide ReadHead, ReadBody, Judge, ParsedHead, Dropped;
  }

  lemma RoundUnfold(cfg: Config, schedule: Schedule, c: Conn, count: nat, e: nat, d: Conn, v: Verdict, b: Conn)
    requires |c.buf| <= c.capacity && e > 0 && ReadHead(cfg.maxHeader, schedule, c) == (e, d)
    requires v == Judge(cfg, ParsedHead(d.buf[..e]), count + 1) && v.Serve? && ReadBody(d, e + v.length) == Some(b)
    ensures RoundOf(cfg, schedule, c, count)
         == Round(Some(Dispatched(ParsedHead(d.buf[..e]), b.buf[e..e + v.length], v.close)), !v.close,
                  b.(buf := Dropped(b.buf, e + v.length)))
  {
    hide Judge, ParsedHead, HeaderEnd, ReadHead, ReadBody, Dropped;
  }

  /** A round that finds its head serves the first request of the stream and leaves the stream behind it. */
  lemma RoundStep(cfg: Config, schedule: Schedule, c: Conn, count: nat)
    requires |c.buf| <= c.capacity && GoesOn(cfg, Stream(c), count)
    requires ReadHead(cfg.maxHeader, schedule, c).0 > 0
    ensures var r := RoundOf(cfg, schedule, c, count);
            && r.goesOn && r.event == Some(ServedFirst(cfg, Stream(c), count))
            && Stream(r.after) == Behind(Stream(c), First(cfg, Stream(c), count).length)
    ensures var (e, d) := ReadHead(cfg.maxHeader, schedule, c);
            |RoundOf(cfg, schedule, c, count).after.buf| <= |d.buf| - e
  {
    hide RoundOf, Judge, ParsedHead, HeaderEnd, ReadHead, ReadBody, Stream;
    ReadHeadFinds(cfg.maxHeader, schedule, c);
    var (e, d) := ReadHead(cfg.maxHeader, schedule, c);
    var v := First(cfg, Stream(c), count);
    BodySlices(Stream(c), d, e, v.length);
    var b := ReadBody(d, e + v.length).value;
    RoundUnfold(cfg, schedule, c, count, e, d, v, b);
  }

  /** When the loop ends with the first request, a head that is found leads to the same end. */
  lemma LastRequest(cfg: Config, schedule: Schedule, c: Conn, count: nat)
    requires |c.buf| <= c.capacity && !GoesOn(cfg, Stream(c), count)
    requires ReadHead(cfg.maxHeader, schedule, c).0 > 0
    ensures Events(cfg, schedule, c, count) == Reference(cfg, Stream(c), count)
  {
    hide Stream, HeaderEnd, ParsedHead, Judge, ReadHead, ReadBody, Events, Reference, Dropped;
    var s := Stream(c);
    var (e, d) := ReadHead(cfg.maxHeader, schedule, c);
    ReadHeadFinds(cfg.maxHeader, schedule, c);
    var req := ParsedHead(s[..e]);
    var v := Judge(cfg, req, count + 1);
    assert First(cfg, s, count) == v;
    EventsUnfold(cfg, schedule, c, count, e, d, req);
    ReferenceUnfold(cfg, s, count, e, req);
    assert v.Serve? ==> v.close || |s| < e + v.length;
    if v.Serve? {
      BodySlices(s, d, e, v.length);
    }
    hide *;
  }

  lemma LastWithinLimit(cfg: Config, s: string, count: nat)
    requires !GoesOn(cfg, s, count)
    ensures WithinLimit(cfg, s, count) <==> Reference(cfg, s, count) == [] || HeaderEnd(s) <= cfg.maxHeader
  {
    hide Judge, ParsedHead, HeaderEnd;
  }

  lemma NoHead(cfg: Config, schedule: Schedule, c: Conn, count: nat)
    requires |c.buf| <= c.capacity && ReadHead(cfg.maxHeader, schedule, c).0 == 0
    ensures Events(cfg, schedule, c, count) == []
  {}

  /**
   Safety, for every stream and every way of reading it: the requests dispatched are the first requests
   of the stream. Nothing is invented, reordered, split or merged.
   */
  lemma {:induction false} DispatchesAPrefix(cfg: Config, schedule: Schedule, c: Conn, count: nat)
    requires |c.buf| <= c.capacity
    ensures Events(cfg, schedule, c, count) <= Reference(cfg, Stream(c), count)
    decreases |c.buf| + |c.unread|
  {
    if ReadHead(cfg.maxHeader, schedule, c).0 == 0 {
      NoHead(cfg, schedule, c, count);
    } else if !GoesOn(cfg, Stream(c), count) {
      LastRequest(cfg, schedule, c, count);
    } else {
      RoundStep(cfg, schedule, c, count);
      ReferenceStep(cfg, Stream(c), count);
      DispatchesAPrefix(cfg, schedule, RoundOf(cfg, schedule, c, count).after, count + 1);
    }
  }

  /** Within the header limit every way of reading dispatches all of them. */
  lemma {:induction false} DispatchesAll(cfg: Config, schedule: Schedule, c: Conn, count: nat)
    requires |c.buf| <= c.capacity && WithinLimit(cfg, Stream(c), count)
    ensures Events(cfg, schedule, c, count) == Reference(cfg, Stream(c), count)
    decreases |c.buf| + |c.unread|
  {
    ReadHeadFinds(cfg.maxHeader, schedule, c);
    if !GoesOn(cfg, Stream(c), count) {
      LastWithinLimit(cfg, Stream(c), count);
      DispatchesAPrefix(cfg, schedule, c, count);
      if ReadHead(cfg.maxHeader, schedule, c).0 > 0 {
        LastRequest(cfg, schedule, c, count);
      }
    } else {
      ReferenceStep(cfg, Stream(c), count);
      RoundStep(cfg, schedule, c, count);
      DispatchesAll(cfg, schedule, RoundOf(cfg, schedule, c, count).after, count + 1);
    }
  }

  // The slowest reader

  /** One byte at a time. */
  const ByteByByte: Schedule := (k: nat) => 1

  lemma OneMoreByte(s: string, i: nat, capacity: nat, turn: nat)
    requires i < |s| && i <= capacity
    ensures var d := Received(Conn(s[..i], capacity, s[i..], turn), ByteByByte);
            d.buf == s[..i + 1] && d.unread == s[i + 1..]
  {
    assert s[i..][..1] == s[i..i + 1];
  }

  /** Byte by byte a head is found as soon as it is complete, or refused when it is too long. */
  lemma {:induction false} FillByteByByte(max: nat, s: string, i: nat, capacity: nat, turn: nat)
    requires i < HeaderEnd(s) && i <= capacity
    ensures var (r, d) := FillHead(max, ByteByByte, Conn(s[..i], capacity, s[i..], turn));
            var e := HeaderEnd(s);
            if e <= max then r == e && d.buf == s[..e] && d.unread == s[e..] else r == 0
    decreases |s| - i
  {
    hide HeaderEnd, Received;
    if i < max {
      var d := Received(Conn(s[..i], capacity, s[i..], turn), ByteByByte);
      OneMoreByte(s, i, capacity, turn);
      HeaderEndPrefix(s[..i + 1], s[i + 1..]);
      assert s[..i + 1] + s[i + 1..] == s;
      if i + 1 < HeaderEnd(s) {
        FillByteByByte(max, s, i + 1, d.capacity, d.turn);
      }
    }
  }

  lemma ReadByteByByte(max: nat, s: string, capacity: nat, turn: nat)
    requires HeaderEnd(s) > 0
    ensures var (r, d) := ReadHead(max, ByteByByte, Conn("", capacity, s, turn));
            var e := HeaderEnd(s);
            if e <= max then r == e && d.buf == s[..e] && d.unread == s[e..] else r == 0
  {
    assert s[..0] == "" && s[0..] == s;
    FillByteByByte(max, s, 0, capacity, turn);
    assert HeaderEnd("") == 0;
  }

  /** Byte by byte nothing of the next request is buffered when a request is done. */
  lemma NothingBuffered(cfg: Config, s: string, c: Conn, count: nat)
    requires c == Conn("", c.capacity, s, c.turn) && Stream(c) == s
    requires GoesOn(cfg, s, count) && HeaderEnd(s) <= cfg.maxHeader
    ensures ReadHead(cfg.maxHeader, ByteByByte, c).0 > 0
    ensures RoundOf(cfg, ByteByByte, c, count).after.buf == ""
  {
    ReadByteByByte(cfg.maxHeader, s, c.capacity, c.turn);
    RoundStep(cfg, ByteByByte, c, count);
  }

  lemma EventsNext(cfg: Config, schedule: Schedule, c: Conn, count: nat)
    requires |c.buf| <= c.capacity && RoundOf(cfg, schedule, c, count).goesOn
    ensures var r := RoundOf(cfg, schedule, c, count);
            |Events(cfg, schedule, c, count)| == 1 + |Events(cfg, schedule, r.after, count + 1)|
  {
    hide RoundOf;
  }

  /** Beyond the header limit the slowest reader loses a request. */
  lemma {:induction false} SlowReaderLoses(cfg: Config, s: string, capacity: nat, turn: nat, count: nat)
    requires !WithinLimit(cfg, s, count)
    ensures |Events(cfg, ByteByByte, Conn("", capacity, s, turn), count)| < |Reference(cfg, s, count)|
    decreases |s|
  {
    var c := Conn("", capacity, s, turn);
    assert Stream(c) == s;
    assert Reference(cfg, s, count) != [] && HeaderEnd(s) > 0;
    ReadByteByByte(cfg.maxHeader, s, capacity, turn);
    hide Reference, Events, WithinLimit, RoundOf, First, HeaderEnd, ReadHead;
    if HeaderEnd(s) > cfg.maxHeader {
      NoHead(cfg, ByteByByte, c, count);
    } else if !GoesOn(cfg, s, count) {
      LastWithinLimit(cfg, s, count);
    } else {
      ReferenceStep(cfg, s, count);
      NothingBuffered(cfg, s, c, count);
      RoundStep(cfg, ByteByByte, c, count);
      EventsNext(cfg, ByteByByte, c, count);
      var d := RoundOf(cfg, ByteByByte, c, count).after;
      assert d == Conn("", d.capacity, Stream(d), d.turn);
      SlowReaderLoses(cfg, Stream(d), d.capacity, d.turn, count + 1);
    }
  }

  /**
   The dispatched requests are those of the stream, however it is cut into reads, if and only if every
   answered head ends within `max_header_size`.
   */
  lemma MatchesReference(cfg: Config, s: string)
    ensures (forall schedule: Schedule :: Events(cfg, schedule, Start(s), 0) == Reference(cfg, s, 0))
       <==> WithinLimit(cfg, s, 0)
  {
    assert Stream(Start(s)) == s;
    if WithinLimit(cfg, s, 0) {
      forall schedule: Schedule ensures Events(cfg, schedule, Start(s), 0) == Reference(cfg, s, 0) {
        DispatchesAll(cfg, schedule, Start(s), 0);
      }
    } else {
      SlowReaderLoses(cfg, s, 8192, 0, 0);
      assert Events(cfg, ByteByByte, Start(s), 0) != Reference(cfg, s, 0);
    }
  }
}
