/** How large the read buffer of a connection gets, over all rounds and all schedules. */
module ReadMemory {
  import opened Text
  import opened Buffers
  import opened RequestHead
  import opened KeepAlive
  import opened Fragmentation
  import opened OversizeHeads
  import opened Independence

  /** The capacity a failed search for a head leaves: the last read made room even if nothing came. */
  function SearchCap(max: nat, d: Conn): (c: nat)
    ensures c >= d.capacity
  {
    if |d.buf| < max then Grown(d.capacity, |d.buf|, READ_SPACE) else d.capacity
  }

  /** The capacity after one round, however it ends; a body that never arrives has had its room made, too. */
  function RoundCap(cfg: Config, schedule: Schedule, c: Conn, count: nat): nat
    requires |c.buf| <= c.capacity
  {
    var (e, d) := ReadHead(cfg.maxHeader, schedule, c);
    if e == 0 then SearchCap(cfg.maxHeader, d)
    else
      match Judge(cfg, ParsedHead(d.buf[..e]), count + 1)
      case Serve(close, n) => BodyCap(d.capacity, e + n)
      case _ => d.capacity
  }

  /** The largest capacity the buffer ever has. */
  function PeakCapacity(cfg: Config, schedule: Schedule, c: Conn, count: nat): nat
    requires |c.buf| <= c.capacity
    decreases Pending(c)
  {
    var r := RoundOf(cfg, schedule, c, count);
    Max(RoundCap(cfg, schedule, c, count), if r.goesOn then PeakCapacity(cfg, schedule, r.after, count + 1) else 0)
  }

  lemma PeakUnfold(cfg: Config, schedule: Schedule, c: Conn, count: nat)
    requires |c.buf| <= c.capacity
    ensures var r := RoundOf(cfg, schedule, c, count);
            PeakCapacity(cfg, schedule, c, count)
            == Max(RoundCap(cfg, schedule, c, count),
                   if r.goesOn then PeakCapacity(cfg, schedule, r.after, count + 1) else 0)
  {
    hide RoundOf, RoundCap;
  }

  lemma {:induction false} SearchGrows(max: nat, schedule: Schedule, c: Conn)
    requires |c.buf| <= c.capacity
    ensures FillHead(max, schedule, c).1.capacity >= c.capacity
    decreases |c.unread|
  {
    hide HeaderEnd, Received;
    if |c.buf| < max && c.unread != "" {
      ReceivedCapacity(c, schedule);
      if HeaderEnd(Received(c, schedule).buf) == 0 {
        SearchGrows(max, schedule, Received(c, schedule));
      }
    }
  }

  lemma RoundGrows(cfg: Config, schedule: Schedule, c: Conn, count: nat)
    requires |c.buf| <= c.capacity
    ensures RoundCap(cfg, schedule, c, count) >= c.capacity
    ensures RoundOf(cfg, schedule, c, count).goesOn ==>
              RoundOf(cfg, schedule, c, count).after.capacity == RoundCap(cfg, schedule, c, count)
  {
    SearchGrows(cfg.maxHeader, schedule, c);
    hide HeaderEnd, FillHead, Judge, ParsedHead, RoundOf;
    if RoundOf(cfg, schedule, c, count).goesOn {
      RoundCapacity(cfg, schedule, c, count);
    }
  }

  /** The buffer never shrinks, so the largest capacity is the last one. */
  lemma {:induction false} PeakIsLast(cfg: Config, schedule: Schedule, c: Conn, count: nat)
    requires |c.buf| <= c.capacity
    ensures PeakCapacity(cfg, schedule, c, count) >= c.capacity
    ensures var r := RoundOf(cfg, schedule, c, count);
            PeakCapacity(cfg, schedule, c, count)
            == if r.goesOn then PeakCapacity(cfg, schedule, r.after, count + 1) else RoundCap(cfg, schedule, c, count)
    decreases |c.buf| + |c.unread|
  {
    hide RoundOf, RoundCap;
    RoundGrows(cfg, schedule, c, count);
    var r := RoundOf(cfg, schedule, c, count);
    PeakUnfold(cfg, schedule, c, count);
    if r.goesOn {
      PeakIsLast(cfg, schedule, r.after, count + 1);
    }
  }

  /** The size of the largest request of a stream whose body is read, head and announced body together. */
  function Longest(cfg: Config, s: string, count: nat): nat
    decreases |s|
  {
    match First(cfg, s, count)
    case Serve(close, n) =>
      Max(HeaderEnd(s) + n, if GoesOn(cfg, s, count) then Longest(cfg, Behind(s, n), count + 1) else 0)
    case _ => 0
  }

  lemma {:induction false} SearchBound(max: nat, schedule: Schedule, c: Conn)
    requires |c.buf| <= c.capacity && READ_SPACE <= c.capacity
    ensures SearchCap(max, FillHead(max, schedule, c).1) <= if max > 0 then Reach(max, c.capacity) else c.capacity
    decreases |c.unread|
  {
    hide HeaderEnd, Received;
    if |c.buf| < max {
      ReachGrown(max, c.capacity, |c.buf|);
      if c.unread != "" {
        var d := Received(c, schedule);
        ReceivedCapacity(c, schedule);
        if HeaderEnd(d.buf) == 0 {
          SearchBound(max, schedule, d);
        } else if |d.buf| < max {
          ReachGrown(max, d.capacity, |d.buf|);
        }
      }
    }
  }

  lemma HeadBound(max: nat, schedule: Schedule, c: Conn, bound: nat)
    requires |c.buf| <= c.capacity <= bound && READ_SPACE <= c.capacity && 2 * (max + READ_SPACE) <= bound
    ensures var (e, d) := ReadHead(max, schedule, c);
            && c.capacity <= d.capacity <= bound && (e == 0 ==> SearchCap(max, d) <= bound)
  {
    hide HeaderEnd, FillHead;
    SearchBound(max, schedule, c);
    SearchGrows(max, schedule, c);
  }

  lemma LongestStep(cfg: Config, s: string, count: nat)
    requires First(cfg, s, count).Serve?
    ensures Longest(cfg, s, count) >= HeaderEnd(s) + First(cfg, s, count).length
    ensures GoesOn(cfg, s, count) ==>
              Longest(cfg, s, count) >= Longest(cfg, Behind(s, First(cfg, s, count).length), count + 1)
  {
    hide HeaderEnd, First, Behind, GoesOn;
  }

  lemma RoundCapIs(cfg: Config, schedule: Schedule, c: Conn, count: nat, e: nat, d: Conn, v: Verdict)
    requires |c.buf| <= c.capacity && ReadHead(cfg.maxHeader, schedule, c) == (e, d)
    requires e > 0 ==> v == Judge(cfg, ParsedHead(d.buf[..e]), count + 1)
    ensures RoundCap(cfg, schedule, c, count)
         == if e == 0 then SearchCap(cfg.maxHeader, d)
            else if v.Serve? then BodyCap(d.capacity, e + v.length) else d.capacity
  {
    hide ReadHead, Judge, ParsedHead, SearchCap, BodyCap;
  }

  /** A round that goes on has served a request of the stream that goes on. */
  lemma GoesOnTogether(cfg: Config, schedule: Schedule, c: Conn, count: nat)
    requires |c.buf| <= c.capacity && RoundOf(cfg, schedule, c, count).goesOn
    ensures GoesOn(cfg, Stream(c), count) && ReadHead(cfg.maxHeader, schedule, c).0 > 0
  {
    hide HeaderEnd, Judge, ParsedHead, ReadHead, Dropped;
    ReadHeadFinds(cfg.maxHeader, schedule, c);
  }

  /**
   Whatever the stream and the schedule, the buffer stays below twice the larger of the header limit with one
   read behind it and the longest request, unless it was larger to begin with.
   */
  lemma {:induction false} PeakBound(cfg: Config, schedule: Schedule, c: Conn, count: nat, bound: nat)
    requires |c.buf| <= c.capacity <= bound && READ_SPACE <= c.capacity
    requires 2 * (cfg.maxHeader + READ_SPACE) <= bound && 2 * Longest(cfg, Stream(c), count) <= bound
    ensures PeakCapacity(cfg, schedule, c, count) <= bound
    decreases |c.buf| + |c.unread|
  {
    hide HeaderEnd, ReadHead, RoundOf, RoundCap, Judge, ParsedHead, SearchCap, PeakCapacity, Longest, First, GoesOn, Behind, Stream;
    var s := Stream(c);
    var (e, d) := ReadHead(cfg.maxHeader, schedule, c);
    ReadHeadFinds(cfg.maxHeader, schedule, c);
    HeadBound(cfg.maxHeader, schedule, c, bound);
    var v := FirstVerdict(cfg, s, d, e, count);
    RoundCapIs(cfg, schedule, c, count, e, d, v);
    if e > 0 && v.Serve? {
      LongestStep(cfg, s, count);
    }
    assert RoundCap(cfg, schedule, c, count) <= bound;
    PeakUnfold(cfg, schedule, c, count);
    RoundGrows(cfg, schedule, c, count);
    var r := RoundOf(cfg, schedule, c, count);
    if r.goesOn {
      GoesOnTogether(cfg, schedule, c, count);
      RoundStep(cfg, schedule, c, count);
      GoesOnHead(cfg, s, count);
      LongestStep(cfg, s, count);
      PeakBound(cfg, schedule, r.after, count + 1, bound);
    }
  }

  lemma FirstVerdict(cfg: Config, s: string, d: Conn, e: nat, count: nat) returns (v: Verdict)
    requires e > 0 ==> HeaderEnd(s) == e <= |d.buf| && d.buf[..e] == s[..e]
    ensures e > 0 ==> v == Judge(cfg, ParsedHead(d.buf[..e]), count + 1) == First(cfg, s, count)
  {
    v := if e > 0 then Judge(cfg, ParsedHead(d.buf[..e]), count + 1) else NoRequest;
  }

  /** Every head of the stream that is looked at ends within the limit. */
  predicate HeadsWithin(cfg: Config, s: string, count: nat)
    decreases |s|
  {
    && HeaderEnd(s) <= cfg.maxHeader
    && (GoesOn(cfg, s, count) ==> HeadsWithin(cfg, Behind(s, First(cfg, s, count).length), count + 1))
  }

  lemma {:induction false} LongestWithin(cfg: Config, s: string, count: nat)
    requires HeadsWithin(cfg, s, count)
    ensures Longest(cfg, s, count) <= cfg.maxHeader + cfg.maxBody
    decreases |s|
  {
    assert First(cfg, s, count).Serve? ==> First(cfg, s, count).length <= cfg.maxBody by { hide HeaderEnd, ParsedHead; }
    hide HeaderEnd, First, Behind;
    if GoesOn(cfg, s, count) {
      GoesOnHead(cfg, s, count);
      LongestWithin(cfg, Behind(s, First(cfg, s, count).length), count + 1);
    }
  }

  /** With heads within the limit the two limits bound the memory of a connection. */
  lemma MemoryBound(cfg: Config, schedule: Schedule, s: string)
    requires HeadsWithin(cfg, s, 0)
    ensures PeakCapacity(cfg, schedule, Start(s), 0)
         <= Max(8192, 2 * (cfg.maxHeader + Max(READ_SPACE, cfg.maxBody)))
  {
    hide PeakCapacity, Longest, HeadsWithin;
    LongestWithin(cfg, s, 0);
    assert Stream(Start(s)) == s;
    PeakBound(cfg, schedule, Start(s), 0, Max(8192, 2 * (cfg.maxHeader + Max(READ_SPACE, cfg.maxBody))));
  }

  /** Any request whose head fits the buffer and whose body does not can double the buffer. */
  lemma RequestDoubles(cfg: Config, s: string, capacity: nat, turn: nat, count: nat) returns (schedule: Schedule)
    requires cfg.maxHeader > 0 && READ_SPACE <= capacity && GoesOn(cfg, s, count)
    requires HeaderEnd(s) <= capacity < HeaderEnd(s) + First(cfg, s, count).length
    ensures var n := First(cfg, s, count).length;
            var r := RoundOf(cfg, schedule, Conn("", capacity, s, turn), count);
            && r.goesOn && r.after.buf == "" && r.after.unread == Behind(s, n) && r.after.capacity >= 2 * capacity
  {
    hide HeaderEnd, ReadHead, FillHead, RoundOf, First, GoesOn, Behind, Stream;
    var c := Conn("", capacity, s, turn);
    NothingYet(c);
    GoesOnHead(cfg, s, count);
    schedule := Steered(cfg.maxHeader, s, 0, capacity, turn, capacity);
    FromEmpty(cfg.maxHeader, schedule, s, capacity, turn);
    RoundFrom(cfg, schedule, c, count, HeaderEnd(s), ReadHead(cfg.maxHeader, schedule, c).1);
  }
}
