/** Which settings bound the memory of a connection, whatever it is sent. */
module MemoryLimits {
  import opened Prelude
  import opened Text
  import opened Numerals
  import opened Buffers
  import opened UrlCoding
  import opened HeaderBlock
  import opened RequestHead
  import opened KeepAlive
  import opened Fragmentation
  import opened OversizeHeads
  import opened Independence
  import opened ReadMemory
  import opened Pipelining

  /** No stream and no schedule make the read buffer larger. */
  ghost predicate Bounds(cfg: Config, bound: nat) {
    forall s: string, schedule: Schedule :: PeakCapacity(cfg, schedule, Start(s), 0) <= bound
  }

  /** Every connection ends with its request number `k`, if it gets there. */
  predicate EndsAt(cfg: Config, k: nat) {
    (cfg.maxKeepAlive > 0 && k >= cfg.maxKeepAlive) || cfg.stopping(k)
  }

  // Settings that bound it

  /** One round at most doubles what there was or could be searched, and adds a body. */
  lemma RoundCapBound(cfg: Config, schedule: Schedule, c: Conn, count: nat, bound: nat)
    requires |c.buf| <= c.capacity <= bound && READ_SPACE <= c.capacity && 2 * (cfg.maxHeader + READ_SPACE) <= bound
    ensures RoundCap(cfg, schedule, c, count) <= if cfg.maxBody == 0 then bound else 2 * bound + cfg.maxBody
  {
    hide HeaderEnd, ReadHead, ParsedHead, SearchCap, RoundCap;
    var (e, d) := ReadHead(cfg.maxHeader, schedule, c);
    ReadHeadFinds(cfg.maxHeader, schedule, c);
    HeadBound(cfg.maxHeader, schedule, c, bound);
    FoundInBuffer(cfg.maxHeader, schedule, c);
    var v := if e > 0 then Judge(cfg, ParsedHead(d.buf[..e]), count + 1) else NoRequest;
    RoundCapIs(cfg, schedule, c, count, e, d, v);
  }

  lemma FoundInBuffer(max: nat, schedule: Schedule, c: Conn)
    requires |c.buf| <= c.capacity
    ensures var (e, d) := ReadHead(max, schedule, c); e <= |d.buf| <= d.capacity
  {}

  lemma {:induction false} NoBodies(cfg: Config, schedule: Schedule, c: Conn, count: nat, bound: nat)
    requires |c.buf| <= c.capacity <= bound && READ_SPACE <= c.capacity && 2 * (cfg.maxHeader + READ_SPACE) <= bound
    requires cfg.maxBody == 0
    ensures PeakCapacity(cfg, schedule, c, count) <= bound
    decreases |c.buf| + |c.unread|
  {
    hide RoundOf, RoundCap, PeakCapacity;
    RoundCapBound(cfg, schedule, c, count, bound);
    RoundGrows(cfg, schedule, c, count);
    PeakUnfold(cfg, schedule, c, count);
    var r := RoundOf(cfg, schedule, c, count);
    if r.goesOn {
      NoBodies(cfg, schedule, r.after, count + 1, bound);
    }
  }

  lemma NoHeads(cfg: Config, schedule: Schedule, s: string)
    requires cfg.maxHeader == 0
    ensures PeakCapacity(cfg, schedule, Start(s), 0) == 8192
  {
    assert HeaderEnd("") == 0;
  }

  /** What `left` more rounds can make of a bound. */
  function AfterRounds(bound: nat, body: nat, left: nat): (b: nat)
    ensures b >= bound
    decreases left
  {
    if left == 0 then bound else AfterRounds(2 * bound + body, body, left - 1)
  }

  lemma LastRound(cfg: Config, schedule: Schedule, c: Conn, count: nat)
    requires |c.buf| <= c.capacity && EndsAt(cfg, count + 1)
    ensures !RoundOf(cfg, schedule, c, count).goesOn
  {
    hide HeaderEnd, ReadHead, ReadBody, ParsedHead, HeaderEquals, HandsOff, ParseU64, Lookup;
  }

  lemma {:induction false} FewRequests(cfg: Config, schedule: Schedule, c: Conn, count: nat, last: nat, bound: nat)
    requires |c.buf| <= c.capacity <= bound && READ_SPACE <= c.capacity && 2 * (cfg.maxHeader + READ_SPACE) <= bound
    requires count < last && EndsAt(cfg, last)
    ensures PeakCapacity(cfg, schedule, c, count) <= AfterRounds(bound, cfg.maxBody, last - count)
    decreases last - count
  {
    hide RoundOf, RoundCap, PeakCapacity, EndsAt;
    RoundCapBound(cfg, schedule, c, count, bound);
    RoundGrows(cfg, schedule, c, count);
    PeakUnfold(cfg, schedule, c, count);
    var r := RoundOf(cfg, schedule, c, count);
    if r.goesOn {
      if count + 1 == last {
        LastRound(cfg, schedule, c, count);
      }
      FewRequests(cfg, schedule, r.after, count + 1, last, 2 * bound + cfg.maxBody);
    }
  }

  lemma SettingsBound(cfg: Config)
    requires cfg.maxHeader == 0 || cfg.maxBody == 0 || exists k: nat :: k > 0 && EndsAt(cfg, k)
    ensures exists bound: nat :: Bounds(cfg, bound)
  {
    hide PeakCapacity, EndsAt;
    var searched := Max(8192, 2 * (cfg.maxHeader + READ_SPACE));
    if cfg.maxHeader == 0 {
      forall s, schedule: Schedule ensures PeakCapacity(cfg, schedule, Start(s), 0) <= 8192 {
        NoHeads(cfg, schedule, s);
      }
      assert Bounds(cfg, 8192);
    } else if cfg.maxBody == 0 {
      forall s, schedule: Schedule ensures PeakCapacity(cfg, schedule, Start(s), 0) <= searched {
        NoBodies(cfg, schedule, Start(s), 0, searched);
      }
      assert Bounds(cfg, searched);
    } else {
      var k: nat :| k > 0 && EndsAt(cfg, k);
      var bound := AfterRounds(searched, cfg.maxBody, k);
      forall s, schedule: Schedule ensures PeakCapacity(cfg, schedule, Start(s), 0) <= bound {
        FewRequests(cfg, schedule, Start(s), 0, k, searched);
      }
      assert Bounds(cfg, bound);
    }
  }

  // Requests that double the buffer

  function Pad(n: nat): string {
    seq(n, _ => 'a')
  }

  /** A request with one byte of body and a header to fill its head up with. */
  function Filler(path: string, n: nat): Ask {
    Ask("POST", path, [], [Field("X", Pad(n))], "x")
  }

  lemma ThreeLines(a: string, b: string, c: string)
    ensures |Block([a, b, c])| == |a| + |b| + |c| + 8
  {
    assert [a, b, c][1..] == [b, c] && [b, c][1..] == [c] && [c][1..] == [];
    assert |Block([c])| == |c| + 4;
    assert |Block([b, c])| == |b| + 2 + |Block([c])|;
  }

  lemma FillerLines(path: string, n: nat)
    requires AllBytes(path) && BytePairs([])
    ensures |AskHead(Filler(path, n))| == |RequestLineText("POST", path, [])| + n + |FieldLine(Field("Content-Length", Digits(1, 10)))| + 11
  {
    var first := RequestLineText("POST", path, []);
    var x, l := Field("X", Pad(n)), Field("Content-Length", Digits(1, 10));
    hide RequestLineText, Digits;
    assert AskHeaders(Filler(path, n)) == [x, l];
    TwoFieldLines(x, l);
    assert [first] + [FieldLine(x), FieldLine(l)] == [first, FieldLine(x), FieldLine(l)];
    ThreeLines(first, FieldLine(x), FieldLine(l));
    assert |FieldLine(x)| == n + 3;
  }

  lemma TwoFieldLines(a: Field, b: Field)
    ensures FieldLines([a, b]) == [FieldLine(a), FieldLine(b)]
  {}

  lemma FillerLength(path: string, n: nat)
    requires AllBytes(path)
    ensures |AskHead(Filler(path, n))| == |AskHead(Filler(path, 0))| + n
  {
    hide AskHead, RequestLineText, FieldLine, Digits;
    FillerLines(path, n);
    FillerLines(path, 0);
  }

  lemma FillerHeaders(n: nat, name: string)
    requires |name| != 1 && |name| != 14
    ensures var fields := AllTrimmed([Field("X", Pad(n))] + [Field("Content-Length", Digits(1, 10))]);
            Lookup(fields, name) == None
  {
    var x, l := [Field("X", Pad(n))], [Field("Content-Length", Digits(1, 10))];
    TrimmedLookup(x + l, name);
    LookupConcat(x, l, name);
    hide Digits, Pad;
    assert Lookup(x, name) == None && Lookup(l, name) == None;
  }

  lemma FillerServed(cfg: Config, path: string, n: nat, count: nat)
    requires AllBytes(path) && path !in cfg.stream && cfg.maxBody > 0
    requires cfg.maxKeepAlive <= 0 && !cfg.stopping(count)
    ensures Served(cfg, Filler(path, n), count)
  {
    var a := Filler(path, n);
    FillerHeaders(n, "upgrade");
    FillerHeaders(n, "connection");
    FillerAskable(path, n);
    hide Lookup, AllTrimmed, Digits, Target, Pad, Askable;
    assert AskHeaders(a) == [Field("X", Pad(n))] + [Field("Content-Length", Digits(|"x"|, 10))];
  }

  lemma FillerAskable(path: string, n: nat)
    requires AllBytes(path)
    ensures Askable(Filler(path, n))
  {
    assert IsMethod("POST");
    assert AllPrintable([Field("X", Pad(n))]);
    assert Lookup([Field("X", Pad(n))], "content-length") == None;
  }

  // Doubling for ever

  /** Path for requests that are dispatched and whose heads can be as small as the first buffer. */
  predicate Roomy(cfg: Config, path: string) {
    AllBytes(path) && path !in cfg.stream && |AskHead(Filler(path, 0))| <= 8192
  }

  /** The request with a head of the given size. */
  function Sized(path: string, size: nat): (a: Ask)
    requires AllBytes(path) && |AskHead(Filler(path, 0))| <= size
  {
    Filler(path, size - |AskHead(Filler(path, 0))|)
  }

  /** Requests each of which has a head that just fills the buffer. */
  function DoublingText(path: string, size: nat, rounds: nat): string
    requires AllBytes(path) && |AskHead(Filler(path, 0))| <= size
    decreases rounds
  {
    if rounds == 0 then "" else AskText(Sized(path, size)) + DoublingText(path, 2 * size, rounds - 1)
  }

  function Doubled(size: nat, k: nat): (d: nat)
    ensures d >= size && (size > 0 ==> d > k)
  {
    if k == 0 then size else 2 * Doubled(size, k - 1)
  }

  /** Every read takes all there is room for. */
  const Filling: Schedule := (k: nat) => Doubled(8192, k)

  /** One such request, read at once. */
  lemma FillingRound(cfg: Config, s: string, size: nat, k: nat)
    requires cfg.maxHeader > 0 && GoesOn(cfg, s, k) && First(cfg, s, k).length == 1
    requires HeaderEnd(s) == size == Doubled(8192, k)
    ensures var r := RoundOf(cfg, Filling, Conn("", size, s, k), k);
            r.goesOn && r.after == Conn("", 2 * size, Behind(s, 1), k + 1)
  {
    hide HeaderEnd, ReadHead, FillHead, Received, RoundOf, First, GoesOn, Behind, Doubled, ServedFirst, Stream;
    var c := Conn("", size, s, k);
    NothingYet(c);
    GoesOnHead(cfg, s, k);
    ReadUpTo(s, 0, size, size, k, Filling);
    FromEmpty(cfg.maxHeader, Filling, s, size, k);
    HeadWithin(s, size);
    FillStep(cfg.maxHeader, Filling, Conn(s[..0], size, s[0..], k));
    RoundFrom(cfg, Filling, c, k, size, Conn(s[..size], size, s[size..], k + 1));
  }

  /** In front of any stream such a request is served, and the stream behind it meets a buffer of double size. */
  lemma DoublingStep(cfg: Config, path: string, k: nat, rest: string)
    requires Roomy(cfg, path) && cfg.maxHeader > 0 && cfg.maxBody > 0
    requires forall j: nat :: j > 0 ==> !EndsAt(cfg, j)
    ensures var size := Doubled(8192, k);
            var r := RoundOf(cfg, Filling, Conn("", size, AskText(Sized(path, size)) + rest, k), k);
            r.goesOn && r.after == Conn("", 2 * size, rest, k + 1)
  {
    hide RoundOf, AskHead, First, GoesOn, Behind, HeaderEnd, ServedFirst, AskText, Pad, Doubled, Served, Meant, Askable;
    var size := Doubled(8192, k);
    var n := size - |AskHead(Filler(path, 0))|;
    NeverEnds(cfg);
    assert !EndsAt(cfg, k + 1);
    FillerLength(path, n);
    FillerServed(cfg, path, n, k + 1);
    BodyOfOne(path, size);
    ServedIsAskable(cfg, Filler(path, n), k + 1);
    AskGoesFirst(cfg, Filler(path, n), rest, k);
    FillingRound(cfg, AskText(Sized(path, size)) + rest, size, k);
  }

  lemma ServedIsAskable(cfg: Config, a: Ask, count: nat)
    requires Served(cfg, a, count)
    ensures Askable(a) && AllBytes(a.path) && BytePairs(a.query)
  {}

  lemma {:induction false} KeepsDoubling(cfg: Config, path: string, k: nat, rounds: nat)
    requires Roomy(cfg, path) && cfg.maxHeader > 0 && cfg.maxBody > 0
    requires forall j: nat :: j > 0 ==> !EndsAt(cfg, j)
    ensures var size := Doubled(8192, k);
            PeakCapacity(cfg, Filling, Conn("", size, DoublingText(path, size, rounds), k), k) >= Doubled(8192, k + rounds)
    decreases rounds
  {
    hide PeakCapacity, RoundOf, AskHead, AskText, Filler, RoundCap, EndsAt, Sized;
    var size := Doubled(8192, k);
    PeakIsLast(cfg, Filling, Conn("", size, DoublingText(path, size, rounds), k), k);
    if rounds > 0 {
      DoublingStep(cfg, path, k, DoublingText(path, 2 * size, rounds - 1));
      KeepsDoubling(cfg, path, k + 1, rounds - 1);
    }
  }

  lemma BodyOfOne(path: string, size: nat)
    requires AllBytes(path) && |AskHead(Filler(path, 0))| <= size
    ensures |Sized(path, size).body| == 1
  {
    hide AskHead;
  }

  lemma NeverEnds(cfg: Config)
    requires forall j: nat :: j > 0 ==> !EndsAt(cfg, j)
    ensures cfg.maxKeepAlive <= 0
  {
    if cfg.maxKeepAlive > 0 {
      assert EndsAt(cfg, cfg.maxKeepAlive);
    }
  }

  /** Under such settings no number bounds the buffer. */
  lemma NoBound(cfg: Config, path: string, bound: nat)
    requires Roomy(cfg, path) && cfg.maxHeader > 0 && cfg.maxBody > 0
    requires forall j: nat :: j > 0 ==> !EndsAt(cfg, j)
    ensures !Bounds(cfg, bound)
  {
    hide PeakCapacity, AskHead, EndsAt, DoublingText;
    KeepsDoubling(cfg, path, 0, bound);
    var s := DoublingText(path, 8192, bound);
    assert Doubled(8192, 0) == 8192;
    assert PeakCapacity(cfg, Filling, Start(s), 0) > bound;
  }

  /**
   The memory of a connection is bounded exactly when heads or bodies are forbidden, or the number of
   requests on a connection is limited, by the keep-alive setting or by the server stopping.
   */
  lemma MemoryBounded(cfg: Config, path: string)
    requires Roomy(cfg, path)
    ensures (exists bound: nat :: Bounds(cfg, bound))
       <==> cfg.maxHeader == 0 || cfg.maxBody == 0 || cfg.maxKeepAlive > 0 || exists k: nat :: k > 0 && cfg.stopping(k)
  {
    hide Bounds, Roomy;
    if cfg.maxKeepAlive > 0 {
      assert EndsAt(cfg, cfg.maxKeepAlive);
    }
    if k: nat :| k > 0 && cfg.stopping(k) {
      assert EndsAt(cfg, k);
    }
    if cfg.maxHeader == 0 || cfg.maxBody == 0 || exists k: nat :: k > 0 && EndsAt(cfg, k) {
      SettingsBound(cfg);
    } else {
      forall bound: nat ensures !Bounds(cfg, bound) {
        NoBound(cfg, path, bound);
      }
    }
  }
}
