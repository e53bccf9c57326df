/**
 The accept loop: each new connection goes to the worker with the fewest live connections.
 One acceptor scans the counters one load at a time, while connections end at any moment.
 */
module AcceptLoop {

  /** A connection: its worker, and whether its guard has given the counter back. */
  datatype Conn = Conn(worker: nat, ended: bool)

  /** A scan that has looked at the first `next` counters. */
  datatype Scan = Scan(next: nat, best: nat, bestCount: int)

  /**
   `conns` is the history of all connections, in the order of their acceptance; `began` are the counters
   when the current scan began, and `peak` is the largest number of connections that were live at once.
   */
  datatype State = State(counts: seq<int>, scan: Scan, conns: seq<Conn>, began: seq<int>, peak: int, running: bool)

  /** Load one counter; accept a connection and count it; a connection ends; the acceptor fails. */
  datatype Action = Look | Accept | Leave(k: nat) | Fail

  const FRESH := Scan(0, 0, 0)

  predicate Good(s: State) {
    && s.counts != [] && |s.began| == |s.counts|
    && s.scan.next <= |s.counts| && s.scan.best < |s.counts|
    && (forall k :: 0 <= k < |s.conns| ==> s.conns[k].worker < |s.counts|)
  }

  predicate Enabled(s: State, a: Action) {
    match a
    case Look => s.running && s.scan.next < |s.counts|
    case Accept => s.running && s.scan.next == |s.counts|
    case Leave(k) => k < |s.conns| && !s.conns[k].ended
    case Fail => s.running && s.scan.next == |s.counts|
  }

  /** One load of the scan: the first counter starts it, a smaller one later on replaces it. */
  function Looked(scan: Scan, count: int): Scan {
    if scan.next == 0 || count < scan.bestCount then Scan(scan.next + 1, scan.next, count)
    else scan.(next := scan.next + 1)
  }

  function Step(s: State, a: Action): (t: State)
    requires Good(s) && Enabled(s, a)
    ensures Good(t) && |t.counts| == |s.counts|
  {
    match a
    case Look =>
      s.(scan := Looked(s.scan, s.counts[s.scan.next]))
    case Accept =>
      var w := s.scan.best;
      var counts := s.counts[w := s.counts[w] + 1];
      var total := Total(counts);
      State(counts, FRESH, s.conns + [Conn(w, false)], counts, if total > s.peak then total else s.peak, true)
    case Leave(k) =>
      var w := s.conns[k].worker;
      s.(counts := s.counts[w := s.counts[w] - 1], conns := s.conns[k := Conn(w, true)])
    case Fail =>
      s.(running := false)
  }

  ghost predicate Runs(s: State, trace: seq<Action>, t: State)
    requires Good(s)
    decreases |trace|
  {
    if trace == [] then t == s
    else Enabled(s, trace[0]) && Runs(Step(s, trace[0]), trace[1..], t)
  }

  function Initial(n: nat): (s: State)
    requires n > 0
    ensures Good(s)
  {
    var zeros := seq(n, _ => 0);
    State(zeros, FRESH, [], zeros, 0, true)
  }

  // Counting

  function Total(counts: seq<int>): int {
    if counts == [] then 0 else Total(counts[..|counts| - 1]) + counts[|counts| - 1]
  }

  /** How many connections of worker `w` have not ended. */
  function Live(conns: seq<Conn>, w: nat): nat {
    if conns == [] then 0
    else
      var last := conns[|conns| - 1];
      Live(conns[..|conns| - 1], w) + if last.worker == w && !last.ended then 1 else 0
  }

  /** How many connections have not ended, on all workers. */
  function AllLive(conns: seq<Conn>): nat {
    if conns == [] then 0
    else AllLive(conns[..|conns| - 1]) + if conns[|conns| - 1].ended then 0 else 1
  }

  lemma {:induction false} TotalUpdate(counts: seq<int>, w: nat, c: int)
    requires w < |counts|
    ensures Total(counts[w := c]) == Total(counts) - counts[w] + c
  {
    var front, n := counts[..|counts| - 1], |counts| - 1;
    if w < n {
      TotalUpdate(front, w, c);
      assert counts[w := c][..n] == front[w := c];
    } else {
      assert counts[w := c][..n] == front;
    }
  }

  lemma {:induction false} TotalAtLeast(counts: seq<int>, m: int)
    requires forall i :: 0 <= i < |counts| ==> m <= counts[i]
    ensures |counts| * m <= Total(counts)
  {
    if counts != [] {
      TotalAtLeast(counts[..|counts| - 1], m);
    }
  }

  lemma {:induction false} TotalMonotone(a: seq<int>, b: seq<int>)
    requires |a| == |b| && forall i :: 0 <= i < |a| ==> a[i] <= b[i]
    ensures Total(a) <= Total(b)
  {
    if a != [] {
      TotalMonotone(a[..|a| - 1], b[..|b| - 1]);
    }
  }

  lemma {:induction false} LiveEnds(conns: seq<Conn>, k: nat, w: nat)
    requires k < |conns| && !conns[k].ended
    ensures var after := conns[k := Conn(conns[k].worker, true)];
            && Live(after, w) == Live(conns, w) - (if conns[k].worker == w then 1 else 0)
            && AllLive(after) == AllLive(conns) - 1
  {
    var after, n := conns[k := Conn(conns[k].worker, true)], |conns| - 1;
    if k < n {
      LiveEnds(conns[..n], k, w);
      assert after[..n] == conns[..n][k := Conn(conns[k].worker, true)];
    } else {
      assert after[..n] == conns[..n];
    }
  }

  lemma LiveSnoc(conns: seq<Conn>, c: Conn, w: nat)
    ensures Live(conns + [c], w) == Live(conns, w) + if c.worker == w && !c.ended then 1 else 0
    ensures AllLive(conns + [c]) == AllLive(conns) + if c.ended then 0 else 1
  {
    assert (conns + [c])[..|conns|] == conns;
  }

  // What every run keeps

  predicate Conserved(s: State) {
    && Good(s)
    && (forall w :: 0 <= w < |s.counts| ==> s.counts[w] == Live(s.conns, w))
    && Total(s.counts) == AllLive(s.conns)
  }

  /** During a scan counters only fall, so the best one seen is below every counter as the scan began. */
  predicate ScanFair(s: State) {
    && Good(s)
    && (forall w :: 0 <= w < |s.counts| ==> s.counts[w] <= s.began[w])
    && (s.scan.next > 0 ==> s.counts[s.scan.best] <= s.scan.bestCount)
    && (forall w :: 0 <= w < s.scan.next ==> s.scan.bestCount <= s.began[w])
  }

  predicate Bounded(s: State) {
    && Good(s)
    && Total(s.counts) <= s.peak && Total(s.began) <= s.peak
    && (forall w :: 0 <= w < |s.counts| ==> |s.counts| * (s.counts[w] - 1) <= s.peak)
  }

  predicate Invariant(s: State) {
    Conserved(s) && ScanFair(s) && Bounded(s)
  }

  lemma AcceptConserved(s: State)
    requires Conserved(s) && Enabled(s, Accept)
    ensures Conserved(Step(s, Accept))
  {
    hide Total, Live, AllLive;
    var best, c := s.scan.best, Conn(s.scan.best, false);
    TotalUpdate(s.counts, best, s.counts[best] + 1);
    LiveSnoc(s.conns, c, best);
    forall w | 0 <= w < |s.counts| ensures Step(s, Accept).counts[w] == Live(s.conns + [c], w) {
      LiveSnoc(s.conns, c, w);
    }
  }

  lemma LeaveConserved(s: State, k: nat)
    requires Conserved(s) && Enabled(s, Leave(k))
    ensures Conserved(Step(s, Leave(k)))
  {
    hide Total, Live, AllLive;
    var worker := s.conns[k].worker;
    TotalUpdate(s.counts, worker, s.counts[worker] - 1);
    LiveEnds(s.conns, k, worker);
    forall w | 0 <= w < |s.counts|
      ensures Step(s, Leave(k)).counts[w] == Live(s.conns[k := Conn(worker, true)], w)
    {
      LiveEnds(s.conns, k, w);
    }
  }

  lemma StepConserved(s: State, a: Action)
    requires Conserved(s) && Enabled(s, a)
    ensures Conserved(Step(s, a))
  {
    hide Total, Live, AllLive;
    match a
    case Look =>
    case Fail =>
    case Accept =>
      AcceptConserved(s);
    case Leave(k) =>
      LeaveConserved(s, k);
  }

  lemma StepScanFair(s: State, a: Action)
    requires ScanFair(s) && Enabled(s, a)
    ensures ScanFair(Step(s, a))
  {}

  /** The worker that gets a connection was, when the scan ended, no busier than any worker as it began. */
  lemma BestIsLow(s: State)
    requires ScanFair(s) && Enabled(s, Accept)
    ensures |s.counts| * s.counts[s.scan.best] <= Total(s.began)
  {
    TotalAtLeast(s.began, s.counts[s.scan.best]);
  }

  lemma StepBounded(s: State, a: Action)
    requires ScanFair(s) && Bounded(s) && Enabled(s, a)
    ensures Bounded(Step(s, a))
  {
    match a
    case Look =>
    case Fail =>
    case Accept =>
      BestIsLow(s);
    case Leave(k) =>
      var t, n := Step(s, a), |s.counts|;
      TotalMonotone(t.counts, s.counts);
      forall w | 0 <= w < n ensures n * (t.counts[w] - 1) <= t.peak {
        Scaled(n, t.counts[w] - 1, s.counts[w] - 1);
      }
  }

  lemma Scaled(n: nat, a: int, b: int)
    requires a <= b
    ensures n * a <= n * b
  {}

  lemma Unscaled(n: nat, a: int, b: int)
    requires n * a < n * b
    ensures a < b
  {
    if a >= b {
      Scaled(n, b, a);
    }
  }

  lemma {:induction false} RunInvariant(s: State, trace: seq<Action>, t: State)
    requires Good(s) && Invariant(s) && Runs(s, trace, t)
    ensures Invariant(t)
    decreases |trace|
  {
    hide Conserved, ScanFair, Bounded, Enabled, Step;
    if trace != [] {
      StepConserved(s, trace[0]);
      StepScanFair(s, trace[0]);
      StepBounded(s, trace[0]);
      RunInvariant(Step(s, trace[0]), trace[1..], t);
    }
  }

  lemma {:induction false} ZeroTotal(n: nat)
    ensures Total(seq(n, _ => 0)) == 0
  {
    if n > 0 {
      ZeroTotal(n - 1);
      assert seq(n, _ => 0)[..n - 1] == seq(n - 1, _ => 0);
    }
  }

  lemma InitialInvariant(n: nat)
    requires n > 0
    ensures Invariant(Initial(n))
  {
    ZeroTotal(n);
  }

  /** In every run each counter is the number of its worker's unfinished connections, so never negative. */
  lemma CountersExact(n: nat, trace: seq<Action>, t: State, w: nat)
    requires n > 0 && Runs(Initial(n), trace, t) && w < n
    ensures |t.counts| == n && t.counts[w] == Live(t.conns, w) >= 0
    ensures Total(t.counts) == AllLive(t.conns)
  {
    InitialInvariant(n);
    RunInvariant(Initial(n), trace, t);
    RunKeepsWorkers(Initial(n), trace, t);
  }

  lemma {:induction false} RunKeepsWorkers(s: State, trace: seq<Action>, t: State)
    requires Good(s) && Runs(s, trace, t)
    ensures |t.counts| == |s.counts|
    decreases |trace|
  {
    hide Enabled, Step;
    if trace != [] {
      RunKeepsWorkers(Step(s, trace[0]), trace[1..], t);
    }
  }

  /** Whoever leaves and whenever: no worker ever has more than `1 + peak / n` connections. */
  lemma NeverOverloaded(n: nat, trace: seq<Action>, t: State, w: nat)
    requires n > 0 && Runs(Initial(n), trace, t) && w < n
    ensures |t.counts| == n && t.counts[w] <= 1 + t.peak / n
  {
    hide Conserved, ScanFair, Runs, Total;
    InitialInvariant(n);
    RunInvariant(Initial(n), trace, t);
    RunKeepsWorkers(Initial(n), trace, t);
    AtMostQuotient(n, t.counts[w] - 1, t.peak);
  }

  lemma AtMostQuotient(n: nat, c: int, p: int)
    requires n > 0 && n * c <= p
    ensures c <= p / n
  {
    var q := p / n;
    assert p == n * q + p % n;
    assert n * (q + 1) == n * q + n;
    Unscaled(n, c, q + 1);
  }

  /** The most connections that are live at once during a run. */
  ghost function MostLive(s: State, trace: seq<Action>): int
    requires Good(s)
    decreases |trace|
  {
    if trace == [] || !Enabled(s, trace[0]) then AllLive(s.conns)
    else
      var later := MostLive(Step(s, trace[0]), trace[1..]);
      if later > AllLive(s.conns) then later else AllLive(s.conns)
  }

  lemma StepPeak(s: State, a: Action)
    requires Conserved(s) && Enabled(s, a) && s.peak >= AllLive(s.conns)
    ensures var t := Step(s, a);
            t.peak == if AllLive(t.conns) > s.peak then AllLive(t.conns) else s.peak
  {
    hide Total, Live, AllLive;
    StepConserved(s, a);
    if a.Leave? {
      LiveEnds(s.conns, a.k, 0);
    }
  }

  lemma {:induction false} RunPeak(s: State, trace: seq<Action>, t: State)
    requires Good(s) && Conserved(s) && s.peak >= AllLive(s.conns) && Runs(s, trace, t)
    ensures t.peak == if MostLive(s, trace) > s.peak then MostLive(s, trace) else s.peak
    decreases |trace|
  {
    hide Step, Conserved, AllLive;
    if trace != [] {
      StepPeak(s, trace[0]);
      StepConserved(s, trace[0]);
      RunPeak(Step(s, trace[0]), trace[1..], t);
    }
  }

  /** The recorded peak is the most that were live at once. */
  lemma PeakIsMost(n: nat, trace: seq<Action>, t: State)
    requires n > 0 && Runs(Initial(n), trace, t)
    ensures t.peak == MostLive(Initial(n), trace)
  {
    InitialInvariant(n);
    RunPeak(Initial(n), trace, t);
    MostLiveStarts(Initial(n), trace);
  }

  lemma MostLiveStarts(s: State, trace: seq<Action>)
    requires Good(s)
    ensures MostLive(s, trace) >= AllLive(s.conns)
  {}

  // The scan as a loop

  /** The first of the smallest counters. */
  function LeftmostMin(counts: seq<int>): (best: nat)
    requires counts != []
    ensures best < |counts|
    ensures forall j :: 0 <= j < |counts| ==> counts[best] <= counts[j]
    ensures forall j :: 0 <= j < best ==> counts[best] < counts[j]
  {
    var n := |counts| - 1;
    if n == 0 then 0
    else
      var best := LeftmostMin(counts[..n]);
      if counts[n] < counts[best] then n else best
  }

  /**
   The loop over the workers. Every counter is loaded once, in order; `loads[i]` is what the load of counter
   `i` gives at its own moment, so connections may end between the loads.
   */
  method PickWorker(loads: seq<int>) returns (best: nat)
    requires loads != []
    ensures best == LeftmostMin(loads)
  {
    best := 0;
    var bestCount := loads[0];
    for i := 1 to |loads|
      invariant best < i && bestCount == loads[best] && best == LeftmostMin(loads[..i])
    {
      assert loads[..i + 1][..i] == loads[..i];
      var c := loads[i];
      if c < bestCount {
        bestCount := c;
        best := i;
      }
    }
    assert loads[..|loads|] == loads;
  }

  /** What the loads of a run give, one after the other. */
  ghost function Loads(s: State, trace: seq<Action>): seq<int>
    requires Good(s)
    decreases |trace|
  {
    if trace == [] || !Enabled(s, trace[0]) then []
    else (if trace[0].Look? then [s.counts[s.scan.next]] else []) + Loads(Step(s, trace[0]), trace[1..])
  }

  /** The scan after some loads. */
  predicate Scanned(scan: Scan, loads: seq<int>) {
    && scan.next == |loads|
    && (loads != [] ==> scan.best == LeftmostMin(loads) && scan.bestCount == loads[scan.best])
  }

  lemma OneLoad(scan: Scan, loads: seq<int>, count: int)
    requires Scanned(scan, loads)
    ensures Scanned(Looked(scan, count), loads + [count])
  {
    assert (loads + [count])[..|loads|] == loads;
  }

  ghost predicate NoAccept(trace: seq<Action>) {
    forall i :: 0 <= i < |trace| ==> !trace[i].Accept?
  }

  lemma {:induction false} ScanFollows(s: State, trace: seq<Action>, t: State, loads: seq<int>)
    requires Good(s) && Runs(s, trace, t) && NoAccept(trace) && Scanned(s.scan, loads)
    ensures Scanned(t.scan, loads + Loads(s, trace))
    decreases |trace|
  {
    hide Scanned, Good, Looked;
    if trace == [] {
      assert loads + [] == loads;
    } else {
      var a, u := trace[0], Step(s, trace[0]);
      assert !a.Accept?;
      assert NoAccept(trace[1..]) by {
        assert forall i :: 0 <= i < |trace| - 1 ==> trace[1..][i] == trace[i + 1];
      }
      if a.Look? {
        OneLoad(s.scan, loads, s.counts[s.scan.next]);
        ScanFollows(u, trace[1..], t, loads + [s.counts[s.scan.next]]);
        Grouped(loads, [s.counts[s.scan.next]], Loads(u, trace[1..]));
      } else {
        ScanFollows(u, trace[1..], t, loads);
        assert [] + Loads(u, trace[1..]) == Loads(u, trace[1..]);
      }
    }
  }

  lemma Grouped(a: seq<int>, b: seq<int>, c: seq<int>)
    ensures (a + b) + c == a + (b + c)
  {}

  /** Whatever ends during a scan, it chooses as the loop over the values it loads does. */
  lemma ScanIsLoop(s: State, trace: seq<Action>, t: State)
    requires Good(s) && s.scan == FRESH && Runs(s, trace, t) && NoAccept(trace) && t.scan.next == |t.counts|
    ensures var loads := Loads(s, trace);
            |loads| == |s.counts| && loads != [] && t.scan.best == LeftmostMin(loads)
  {
    hide Loads, LeftmostMin;
    ScanFollows(s, trace, t, []);
    RunKeepsWorkers(s, trace, t);
    assert [] + Loads(s, trace) == Loads(s, trace);
  }

  function Looks(k: nat): (trace: seq<Action>)
    ensures |trace| == k && NoAccept(trace) && forall i :: 0 <= i < k ==> trace[i] == Look
  {
    seq(k, _ => Look)
  }

  lemma {:induction false} LooksRun(s: State, k: nat) returns (t: State)
    requires Good(s) && s.running && s.scan.next + k == |s.counts|
    ensures Runs(s, Looks(k), t)
    ensures t == s.(scan := t.scan) && t.scan.next == |s.counts| && Loads(s, Looks(k)) == s.counts[s.scan.next..]
    ensures t.scan.best < |s.counts|
    decreases k
  {
    if k == 0 {
      t := s;
      assert Looks(0) == [];
    } else {
      assert Looks(k)[0] == Look && Looks(k)[1..] == Looks(k - 1);
      var u := Step(s, Look);
      t := LooksRun(u, k - 1);
      assert [s.counts[s.scan.next]] + s.counts[s.scan.next + 1..] == s.counts[s.scan.next..];
    }
  }

  /** A scan and an acceptance are possible whenever the acceptor runs, and the connection goes where it should. */
  lemma AcceptsOne(s: State) returns (t: State)
    requires Good(s) && s.running && s.scan == FRESH
    ensures Runs(s, Looks(|s.counts|) + [Accept], t)
    ensures t.conns == s.conns + [Conn(LeftmostMin(s.counts), false)] && t.scan == FRESH && t.running
    ensures t.counts == s.counts[LeftmostMin(s.counts) := s.counts[LeftmostMin(s.counts)] + 1]
  {
    hide LeftmostMin, Total;
    var u := LooksRun(s, |s.counts|);
    assert s.counts[0..] == s.counts;
    ScanIsLoop(s, Looks(|s.counts|), u);
    t := Step(u, Accept);
    assert Runs(u, [Accept], t) by { OneStep(u, Accept); }
    RunOn(s, Looks(|s.counts|), u, [Accept], t);
  }

  lemma OneStep(s: State, a: Action)
    requires Good(s) && Enabled(s, a)
    ensures Runs(s, [a], Step(s, a))
  {
    assert Runs(Step(s, a), [], Step(s, a));
    assert [a][1..] == [];
  }

  lemma {:induction false} RunOn(s: State, a: seq<Action>, m: State, b: seq<Action>, t: State)
    requires Good(s) && Runs(s, a, m) && Good(m) && Runs(m, b, t)
    ensures Runs(s, a + b, t)
    decreases |a|
  {
    hide Step, Enabled, Good;
    if a == [] {
      assert a + b == b;
    } else {
      assert (a + b)[0] == a[0] && (a + b)[1..] == a[1..] + b;
      StepGood(s, a[0]);
      RunOn(Step(s, a[0]), a[1..], m, b, t);
    }
  }

  lemma StepGood(s: State, a: Action)
    requires Good(s) && Enabled(s, a)
    ensures Good(Step(s, a))
  {}

  // Runs without departures

  ghost predicate NobodyLeaves(trace: seq<Action>) {
    forall i :: 0 <= i < |trace| ==> !trace[i].Leave?
  }

  /** Round robin so far: the counters are those of an even spread, and the scan has seen its leftmost minimum. */
  predicate RoundRobin(s: State) {
    && Good(s)
    && (forall k :: 0 <= k < |s.conns| ==> s.conns[k].worker == k % |s.counts|)
    && (forall w :: 0 <= w < |s.counts| ==> s.counts[w] == Share(|s.conns|, |s.counts|, w))
    && (s.scan.next > 0 ==>
          && s.scan.best < s.scan.next && s.scan.bestCount == s.counts[s.scan.best]
          && s.scan.best == LeftmostMin(s.counts[..s.scan.next]))
  }

  /** How many of the first `k` connections worker `w` of `n` gets when they go round. */
  function Share(k: nat, n: nat, w: nat): nat
    requires w < n
  {
    k / n + if w < k % n then 1 else 0
  }

  lemma ShareNext(k: nat, n: nat, w: nat)
    requires w < n
    ensures Share(k + 1, n, w) == Share(k, n, w) + if w == k % n then 1 else 0
  {
    var q, r := k / n, k % n;
    assert k == n * q + r;
    if r + 1 < n {
      Divided(k + 1, n, q, r + 1);
    } else {
      assert n * (q + 1) == n * q + n;
      Divided(k + 1, n, q + 1, 0);
    }
  }

  lemma Divided(k: nat, n: nat, q: nat, r: nat)
    requires r < n && k == n * q + r
    ensures k / n == q && k % n == r
  {
    assert k == n * (k / n) + k % n;
    assert n * (q + 1) == n * q + n && n * (k / n + 1) == n * (k / n) + n;
    Unscaled(n, q, k / n + 1);
    Unscaled(n, k / n, q + 1);
  }

  /** In an even spread the leftmost minimum is the next worker in turn. */
  lemma NextInTurn(counts: seq<int>, k: nat)
    requires counts != [] && forall w :: 0 <= w < |counts| ==> counts[w] == Share(k, |counts|, w)
    ensures LeftmostMin(counts) == k % |counts|
  {
    var n, best := |counts|, LeftmostMin(counts);
    assert counts[k % n] == k / n;
    assert counts[best] <= counts[k % n];
    assert forall j :: 0 <= j < best ==> counts[best] < counts[j];
  }

  lemma AcceptRoundRobin(s: State)
    requires RoundRobin(s) && Enabled(s, Accept)
    ensures RoundRobin(Step(s, Accept))
  {
    hide Share, LeftmostMin, Total;
    var n, k := |s.counts|, |s.conns|;
    assert s.counts[..n] == s.counts;
    NextInTurn(s.counts, k);
    forall w | 0 <= w < n ensures Step(s, Accept).counts[w] == Share(k + 1, n, w) {
      ShareNext(k, n, w);
    }
  }

  lemma StepRoundRobin(s: State, a: Action)
    requires RoundRobin(s) && Enabled(s, a) && !a.Leave?
    ensures RoundRobin(Step(s, a))
  {
    hide Share, Total;
    match a
    case Fail =>
    case Look =>
      var i := s.scan.next;
      assert i > 0 ==> s.counts[..i + 1][..i] == s.counts[..i];
    case Accept =>
      AcceptRoundRobin(s);
  }

  lemma {:induction false} RunRoundRobin(s: State, trace: seq<Action>, t: State)
    requires Good(s) && RoundRobin(s) && Runs(s, trace, t) && NobodyLeaves(trace)
    ensures RoundRobin(t)
    decreases |trace|
  {
    hide RoundRobin, Enabled, Step;
    if trace != [] {
      assert !trace[0].Leave?;
      assert NobodyLeaves(trace[1..]) by {
        assert forall i :: 0 <= i < |trace| - 1 ==> trace[1..][i] == trace[i + 1];
      }
      StepRoundRobin(s, trace[0]);
      RunRoundRobin(Step(s, trace[0]), trace[1..], t);
    }
  }

  /** Without departures the k-th connection goes to worker `k mod n`, and two counters differ by at most one. */
  lemma EvenWithoutDepartures(n: nat, trace: seq<Action>, t: State)
    requires n > 0 && Runs(Initial(n), trace, t) && NobodyLeaves(trace)
    ensures |t.counts| == n
    ensures forall k :: 0 <= k < |t.conns| ==> t.conns[k] == Conn(k % n, false)
    ensures forall v, w :: 0 <= v < n && 0 <= w < n ==> t.counts[v] <= t.counts[w] + 1
  {
    RunKeepsWorkers(Initial(n), trace, t);
    StartsRoundRobin(n);
    RunRoundRobin(Initial(n), trace, t);
    NobodyLeft(Initial(n), trace, t);
  }

  lemma StartsRoundRobin(n: nat)
    requires n > 0
    ensures RoundRobin(Initial(n))
  {
    Divided(0, n, 0, 0);
  }

  lemma {:induction false} NobodyLeft(s: State, trace: seq<Action>, t: State)
    requires Good(s) && Runs(s, trace, t) && NobodyLeaves(trace)
    requires forall k :: 0 <= k < |s.conns| ==> !s.conns[k].ended
    ensures forall k :: 0 <= k < |t.conns| ==> !t.conns[k].ended
    decreases |trace|
  {
    if trace != [] {
      assert !trace[0].Leave?;
      assert NobodyLeaves(trace[1..]) by {
        assert forall i :: 0 <= i < |trace| - 1 ==> trace[1..][i] == trace[i + 1];
      }
      NobodyLeft(Step(s, trace[0]), trace[1..], t);
    }
  }
}
