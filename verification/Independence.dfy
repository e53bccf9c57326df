/** Which streams are dispatched in the same way however they are cut into reads: the exact condition. */
module Independence {
  import opened Prelude
  import opened Text
  import opened Buffers
  import opened RequestHead
  import opened KeepAlive
  import opened Fragmentation
  import opened OversizeHeads

  // What every schedule dispatches

  /** The requests of a stream up to the first head beyond the limit. */
  function Kept(cfg: Config, s: string, count: nat): seq<Event>
    decreases |s|
  {
    if HeaderEnd(s) > cfg.maxHeader then []
    else if GoesOn(cfg, s, count) then
      [ServedFirst(cfg, s, count)] + Kept(cfg, Behind(s, First(cfg, s, count).length), count + 1)
    else Reference(cfg, s, count)
  }

  lemma KeptStep(cfg: Config, s: string, count: nat)
    requires HeaderEnd(s) <= cfg.maxHeader && GoesOn(cfg, s, count)
    ensures Kept(cfg, s, count)
         == [ServedFirst(cfg, s, count)] + Kept(cfg, Behind(s, First(cfg, s, count).length), count + 1)
  {
    hide HeaderEnd, GoesOn, ServedFirst, First, Behind;
  }

  lemma KeptLast(cfg: Config, s: string, count: nat)
    requires HeaderEnd(s) <= cfg.maxHeader && !GoesOn(cfg, s, count)
    ensures Kept(cfg, s, count) == Reference(cfg, s, count)
  {
    hide HeaderEnd, GoesOn, Reference;
  }

  lemma EventsStep(cfg: Config, schedule: Schedule, c: Conn, count: nat)
    requires |c.buf| <= c.capacity && RoundOf(cfg, schedule, c, count).goesOn
    ensures var r := RoundOf(cfg, schedule, c, count);
            Events(cfg, schedule, c, count) == [r.event.value] + Events(cfg, schedule, r.after, count + 1)
  {
    hide RoundOf;
  }

  lemma NothingToRead(cfg: Config, s: string, count: nat)
    ensures HeaderEnd(s) == 0 ==> Reference(cfg, s, count) == []
  {
    hide HeaderEnd;
  }

  /** Every schedule dispatches at least these, and none of them differently. */
  lemma {:induction false} KeptByAll(cfg: Config, schedule: Schedule, c: Conn, count: nat)
    requires |c.buf| <= c.capacity
    ensures Kept(cfg, Stream(c), count) <= Events(cfg, schedule, c, count)
    decreases |c.buf| + |c.unread|
  {
    hide HeaderEnd, Reference, Events, Kept, ReadHead, RoundOf, First, Behind, ServedFirst, GoesOn, Stream;
    var s := Stream(c);
    ReadHeadFinds(cfg.maxHeader, schedule, c);
    if HeaderEnd(s) > cfg.maxHeader {
      assert Kept(cfg, s, count) == [] by { KeptNothing(cfg, s, count); }
    } else if !GoesOn(cfg, s, count) {
      KeptLast(cfg, s, count);
      NothingToRead(cfg, s, count);
      if HeaderEnd(s) > 0 {
        LastRequest(cfg, schedule, c, count);
      }
    } else {
      GoesOnHead(cfg, s, count);
      KeptStep(cfg, s, count);
      RoundStep(cfg, schedule, c, count);
      EventsStep(cfg, schedule, c, count);
      KeptByAll(cfg, schedule, RoundOf(cfg, schedule, c, count).after, count + 1);
    }
  }

  lemma KeptNothing(cfg: Config, s: string, count: nat)
    requires HeaderEnd(s) > cfg.maxHeader
    ensures Kept(cfg, s, count) == []
  {}

  lemma GoesOnHead(cfg: Config, s: string, count: nat)
    requires GoesOn(cfg, s, count)
    ensures HeaderEnd(s) > 0 && First(cfg, s, count).Serve?
    ensures HeaderEnd(s) + First(cfg, s, count).length <= |s|
    ensures |Behind(s, First(cfg, s, count).length)| < |s| && Reference(cfg, s, count) != []
  {
    ReferenceStep(cfg, s, count);
  }

  /** The byte-by-byte schedule dispatches nothing more. */
  lemma {:induction false} SlowestKeeps(cfg: Config, s: string, capacity: nat, turn: nat, count: nat)
    ensures Events(cfg, ByteByByte, Conn("", capacity, s, turn), count) == Kept(cfg, s, count)
    decreases |s|
  {
    var c := Conn("", capacity, s, turn);
    assert Stream(c) == s;
    ReadHeadFinds(cfg.maxHeader, ByteByByte, c);
    if HeaderEnd(s) > 0 {
      ReadByteByByte(cfg.maxHeader, s, capacity, turn);
    }
    hide Reference, Events, Kept, RoundOf, First, HeaderEnd, ReadHead, GoesOn, Behind, ServedFirst;
    if HeaderEnd(s) > cfg.maxHeader {
      NoHead(cfg, ByteByByte, c, count);
      KeptNothing(cfg, s, count);
    } else if HeaderEnd(s) == 0 {
      NoHead(cfg, ByteByByte, c, count);
      NothingToRead(cfg, s, count);
      KeptByAll(cfg, ByteByByte, c, count);
    } else if !GoesOn(cfg, s, count) {
      LastRequest(cfg, ByteByByte, c, count);
      KeptLast(cfg, s, count);
    } else {
      GoesOnHead(cfg, s, count);
      NothingBuffered(cfg, s, c, count);
      RoundStep(cfg, ByteByByte, c, count);
      EventsStep(cfg, ByteByByte, c, count);
      KeptStep(cfg, s, count);
      var d := RoundOf(cfg, ByteByByte, c, count).after;
      assert d == Conn("", d.capacity, Stream(d), d.turn);
      SlowestKeeps(cfg, Stream(d), d.capacity, d.turn, count + 1);
    }
  }

  // When some schedule dispatches more

  /** The capacity behind a request of `total` bytes. */
  function BodyCap(capacity: nat, total: nat): (c: nat)
    ensures c >= capacity
  {
    Grown(capacity, 0, total)
  }

  /**
   With the given buffer capacity and nothing buffered, some schedule gets past the first head beyond the
   limit: that head would be answered, and it ends within what a buffer can hold that has served the
   requests in front of it.
   */
  predicate Sensitive(cfg: Config, s: string, capacity: nat, count: nat)
    requires capacity > 0
    decreases |s|
  {
    var e := HeaderEnd(s);
    if e > cfg.maxHeader then
      Reference(cfg, s, count) != [] && cfg.maxHeader > 0 && e <= Reach(cfg.maxHeader, capacity)
    else
      GoesOn(cfg, s, count)
      && var n := First(cfg, s, count).length;
         exists cap :: cap in HeadCaps(e, cfg.maxHeader, capacity)
                       && Sensitive(cfg, Behind(s, n), BodyCap(cap, e + n), count + 1)
  }

  /** The capacity of the connection after a round that goes on. */
  lemma RoundCapacity(cfg: Config, schedule: Schedule, c: Conn, count: nat)
    requires |c.buf| <= c.capacity && RoundOf(cfg, schedule, c, count).goesOn
    ensures var (e, d) := ReadHead(cfg.maxHeader, schedule, c);
            && e > 0 && Judge(cfg, ParsedHead(d.buf[..e]), count + 1).Serve?
            && var total := e + Judge(cfg, ParsedHead(d.buf[..e]), count + 1).length;
               && RoundOf(cfg, schedule, c, count).after.capacity == BodyCap(d.capacity, total)
               && RoundOf(cfg, schedule, c, count).after.turn == d.turn
               && RoundOf(cfg, schedule, c, count).after.buf == Dropped(ReadBody(d, total).value.buf, total)
  {
    hide Judge, ParsedHead, HeaderEnd, ReadHead, Dropped;
  }

  lemma FoundCapacity(cfg: Config, schedule: Schedule, c: Conn)
    requires |c.buf| <= c.capacity && READ_SPACE <= c.capacity && ReadHead(cfg.maxHeader, schedule, c).0 > 0
    ensures var (e, d) := ReadHead(cfg.maxHeader, schedule, c);
            d.capacity in HeadCaps(e, cfg.maxHeader, c.capacity)
  {
    hide HeaderEnd, FillHead;
    if HeaderEnd(c.buf) == 0 {
      FoundWith(cfg.maxHeader, schedule, c);
    }
  }

  lemma NotAcceptable(cfg: Config, schedule: Schedule, c: Conn)
    requires |c.buf| <= c.capacity && READ_SPACE <= c.capacity && HeaderEnd(Stream(c)) > cfg.maxHeader
    requires if cfg.maxHeader > 0 then HeaderEnd(Stream(c)) > Reach(cfg.maxHeader, c.capacity) else c.buf == ""
    ensures ReadHead(cfg.maxHeader, schedule, c).0 == 0
  {
    hide Reach;
    assert HeaderEnd("") == 0;
    HeaderEndPrefix(c.buf, c.unread);
    hide HeaderEnd;
    HeadAcceptable(cfg.maxHeader, c);
  }

  /** In any other case all schedules dispatch the same. */
  lemma {:induction false} Insensitive(cfg: Config, schedule: Schedule, c: Conn, count: nat)
    requires |c.buf| <= c.capacity && READ_SPACE <= c.capacity && (cfg.maxHeader > 0 || c.buf == "")
    requires !Sensitive(cfg, Stream(c), c.capacity, count)
    ensures Events(cfg, schedule, c, count) == Kept(cfg, Stream(c), count)
    decreases |c.buf| + |c.unread|
  {
    hide HeaderEnd, Reference, Events, Kept, ReadHead, RoundOf, First, Behind, ServedFirst, GoesOn, Stream, HeadCaps,
         Reach, BodyCap, Judge;
    var s := Stream(c);
    var e := HeaderEnd(s);
    ReadHeadFinds(cfg.maxHeader, schedule, c);
    if e > cfg.maxHeader {
      KeptNothing(cfg, s, count);
      if Reference(cfg, s, count) == [] {
        DispatchesAPrefix(cfg, schedule, c, count);
      } else {
        NotAcceptable(cfg, schedule, c);
        NoHead(cfg, schedule, c, count);
      }
    } else if e == 0 {
      NothingToRead(cfg, s, count);
      DispatchesAPrefix(cfg, schedule, c, count);
      KeptByAll(cfg, schedule, c, count);
    } else if !GoesOn(cfg, s, count) {
      LastRequest(cfg, schedule, c, count);
      KeptLast(cfg, s, count);
    } else {
      GoesOnHead(cfg, s, count);
      KeptStep(cfg, s, count);
      RoundStep(cfg, schedule, c, count);
      EventsStep(cfg, schedule, c, count);
      var d := RoundOf(cfg, schedule, c, count).after;
      NextCapacity(cfg, schedule, c, count);
      Insensitive(cfg, schedule, d, count + 1);
    }
  }

  /** Capacity and turn after a round that serves the first request of the stream. */
  lemma RoundTotals(cfg: Config, schedule: Schedule, c: Conn, count: nat)
    requires |c.buf| <= c.capacity
    requires GoesOn(cfg, Stream(c), count) && ReadHead(cfg.maxHeader, schedule, c).0 > 0
    ensures var (e, d) := ReadHead(cfg.maxHeader, schedule, c);
            var r := RoundOf(cfg, schedule, c, count);
            && e == HeaderEnd(Stream(c)) && r.goesOn && r.after.turn == d.turn
            && r.after.capacity == BodyCap(d.capacity, e + First(cfg, Stream(c), count).length)
  {
    hide HeaderEnd, ReadHead, RoundOf, HeadCaps, Judge, ParsedHead, BodyCap, Stream;
    ReadHeadFinds(cfg.maxHeader, schedule, c);
    RoundStep(cfg, schedule, c, count);
    RoundCapacity(cfg, schedule, c, count);
  }

  lemma NextCapacity(cfg: Config, schedule: Schedule, c: Conn, count: nat)
    requires |c.buf| <= c.capacity && READ_SPACE <= c.capacity
    requires GoesOn(cfg, Stream(c), count) && ReadHead(cfg.maxHeader, schedule, c).0 > 0
    ensures var (e, d) := ReadHead(cfg.maxHeader, schedule, c);
            && e == HeaderEnd(Stream(c)) && d.capacity in HeadCaps(e, cfg.maxHeader, c.capacity)
            && RoundOf(cfg, schedule, c, count).goesOn
            && RoundOf(cfg, schedule, c, count).after.capacity
               == BodyCap(d.capacity, e + First(cfg, Stream(c), count).length)
  {
    hide HeaderEnd, ReadHead, RoundOf, HeadCaps, First, GoesOn, BodyCap, Stream;
    RoundTotals(cfg, schedule, c, count);
    FoundCapacity(cfg, schedule, c);
  }

  // The schedule that dispatches more

  /** Only the turns still to be taken matter. */
  lemma {:induction false} SameFuture(cfg: Config, a: Schedule, b: Schedule, c: Conn, count: nat)
    requires |c.buf| <= c.capacity && forall k :: c.turn <= k ==> a(k) == b(k)
    ensures Events(cfg, a, c, count) == Events(cfg, b, c, count)
    decreases |c.buf| + |c.unread|
  {
    SameRound(cfg, a, b, c, count);
    hide RoundOf, ReadHead;
    var r := RoundOf(cfg, a, c, count);
    if r.goesOn {
      RoundCapacity(cfg, a, c, count);
      HeadTurn(cfg.maxHeader, a, c);
      SameFuture(cfg, a, b, r.after, count + 1);
    }
  }

  lemma HeadTurn(max: nat, schedule: Schedule, c: Conn)
    requires |c.buf| <= c.capacity
    ensures ReadHead(max, schedule, c).1.turn >= c.turn
  {
    hide HeaderEnd, FillHead;
    TurnsGrow(max, schedule, c);
  }

  lemma SameRound(cfg: Config, a: Schedule, b: Schedule, c: Conn, count: nat)
    requires |c.buf| <= c.capacity
    requires forall k :: c.turn <= k < ReadHead(cfg.maxHeader, a, c).1.turn ==> a(k) == b(k)
    ensures RoundOf(cfg, a, c, count) == RoundOf(cfg, b, c, count)
  {
    hide HeaderEnd, FillHead, Judge, ParsedHead, ReadBody;
    if HeaderEnd(c.buf) == 0 {
      SameTurns(cfg.maxHeader, a, b, c);
    }
  }

  /** A schedule that follows `a` up to some turn and `b` from there on. */
  function Joined(a: Schedule, b: Schedule, turn: nat): Schedule {
    (k: nat) => if k < turn then a(k) else b(k)
  }

  /** A head found with nothing behind it leaves nothing in the buffer for the next round. */
  lemma RoundFrom(cfg: Config, schedule: Schedule, c: Conn, count: nat, e: nat, d: Conn)
    requires |c.buf| <= c.capacity && GoesOn(cfg, Stream(c), count)
    requires ReadHead(cfg.maxHeader, schedule, c) == (e, d) && |d.buf| == e > 0
    ensures HeaderEnd(Stream(c)) == e && e + First(cfg, Stream(c), count).length <= |Stream(c)|
    ensures var n := First(cfg, Stream(c), count).length;
            var r := RoundOf(cfg, schedule, c, count);
            && r.goesOn && r.event == Some(ServedFirst(cfg, Stream(c), count))
            && r.after == Conn("", BodyCap(d.capacity, e + n), Behind(Stream(c), n), d.turn)
  {
    hide *;
    GoesOnHead(cfg, Stream(c), count);
    RoundStep(cfg, schedule, c, count);
    RoundTotals(cfg, schedule, c, count);
    var after := RoundOf(cfg, schedule, c, count).after;
    NothingYet(after);
    assert after.buf == "";
    assert after.unread == Behind(Stream(c), First(cfg, Stream(c), count).length);
  }

  lemma FromEmpty(max: nat, schedule: Schedule, s: string, capacity: nat, turn: nat)
    ensures ReadHead(max, schedule, Conn("", capacity, s, turn))
         == FillHead(max, schedule, Conn(s[..0], capacity, s[0..], turn))
  {
    assert HeaderEnd("") == 0 && s[..0] == "" && s[0..] == s;
  }

  /** A head beyond the limit that is accepted leads to an event. */
  lemma AcceptedIsAnswered(cfg: Config, schedule: Schedule, c: Conn, count: nat)
    requires |c.buf| <= c.capacity && ReadHead(cfg.maxHeader, schedule, c).0 > 0
    requires Reference(cfg, Stream(c), count) != []
    ensures Events(cfg, schedule, c, count) != []
  {
    hide HeaderEnd, ReadHead, RoundOf, Reference, Stream, First;
    if GoesOn(cfg, Stream(c), count) {
      RoundStep(cfg, schedule, c, count);
    } else {
      LastRequest(cfg, schedule, c, count);
    }
  }

  lemma {:induction false} SomeScheduleGains(cfg: Config, s: string, capacity: nat, turn: nat, count: nat)
    returns (schedule: Schedule)
    requires READ_SPACE <= capacity && Sensitive(cfg, s, capacity, count)
    ensures |Events(cfg, schedule, Conn("", capacity, s, turn), count)| > |Kept(cfg, s, count)|
    decreases |s|
  {
    hide HeaderEnd, Reference, Events, Kept, ReadHead, FillHead, RoundOf, First, Behind, ServedFirst, GoesOn, HeadCaps,
         Reach, BodyCap, Joined, Stream;
    var e, c := HeaderEnd(s), Conn("", capacity, s, turn);
    NothingYet(c);
    if e > cfg.maxHeader {
      KeptNothing(cfg, s, count);
      HeadAcceptable(cfg.maxHeader, c);
      schedule :| ReadHead(cfg.maxHeader, schedule, c).0 > 0;
      AcceptedIsAnswered(cfg, schedule, c, count);
    } else {
      GoesOnHead(cfg, s, count);
      var n := First(cfg, s, count).length;
      var cap :| cap in HeadCaps(e, cfg.maxHeader, capacity)
                 && Sensitive(cfg, Behind(s, n), BodyCap(cap, e + n), count + 1);
      assert Grown(capacity, 0, READ_SPACE) == capacity;
      var first := Steered(cfg.maxHeader, s, 0, capacity, turn, cap);
      FromEmpty(cfg.maxHeader, first, s, capacity, turn);
      RoundFrom(cfg, first, c, count, e, ReadHead(cfg.maxHeader, first, c).1);
      var d := RoundOf(cfg, first, c, count).after;
      var later := SomeScheduleGains(cfg, d.unread, d.capacity, d.turn, count + 1);
      schedule := Joined(first, later, d.turn);
      JoinedRuns(cfg, first, later, c, count);
      KeptStep(cfg, s, count);
    }
  }

  lemma NothingYet(c: Conn)
    ensures HeaderEnd("") == 0
    ensures c.buf == "" ==> Stream(c) == c.unread
  {}

  lemma JoinedRuns(cfg: Config, first: Schedule, later: Schedule, c: Conn, count: nat)
    requires |c.buf| <= c.capacity && RoundOf(cfg, first, c, count).goesOn
    ensures var d := RoundOf(cfg, first, c, count).after;
            |Events(cfg, Joined(first, later, d.turn), c, count)| == 1 + |Events(cfg, later, d, count + 1)|
  {
    hide ReadHead, RoundOf, Events;
    RoundCapacity(cfg, first, c, count);
    var d := RoundOf(cfg, first, c, count).after;
    var both := Joined(first, later, d.turn);
    SameRound(cfg, first, both, c, count);
    EventsNext(cfg, both, c, count);
    SameFuture(cfg, both, later, d, count + 1);
  }

  /**
   The dispatched requests do not depend on how the stream is cut into reads, if and only if no head
   beyond the limit that would be answered comes within the reach of the buffer.
   */
  lemma FragmentationIndependence(cfg: Config, s: string)
    ensures (forall a: Schedule, b: Schedule :: Events(cfg, a, Start(s), 0) == Events(cfg, b, Start(s), 0))
       <==> !Sensitive(cfg, s, 8192, 0)
  {
    hide Events, Sensitive, Kept;
    assert Stream(Start(s)) == s;
    if Sensitive(cfg, s, 8192, 0) {
      var more := SomeScheduleGains(cfg, s, 8192, 0, 0);
      SlowestKeeps(cfg, s, 8192, 0, 0);
      assert Events(cfg, more, Start(s), 0) != Events(cfg, ByteByByte, Start(s), 0);
    } else {
      forall a: Schedule, b: Schedule ensures Events(cfg, a, Start(s), 0) == Events(cfg, b, Start(s), 0) {
        Insensitive(cfg, a, Start(s), 0);
        Insensitive(cfg, b, Start(s), 0);
      }
    }
  }
}
