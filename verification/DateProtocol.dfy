/**
 One writer and any number of readers of the date cache, one character at a time.
 Loads and stores of single characters and of the number of the active buffer are the steps; the
 characters may be written and copied in any order, and several times.
 */
module DateProtocol {
  import opened DateCache

  /** A reader remembers the buffer it was given and what it has copied so far. */
  datatype Reader =
    | Resting
      /** `since` is how many updates had been published at the load; `late` says that a character was
          copied after two more updates had begun (one in progress at the load is the first of them). */
    | Copying(from: nat, since: nat, got: map<nat, char>, late: bool)

  datatype Writer = Idle | Writing(next: nat)

  /** `published` is the history of the seconds whose dates have been shown. */
  datatype State = State(cache: Cache, writer: Writer, published: seq<int>, readers: seq<Reader>)

  /** Writer: begin, write a character, publish. Reader: load the active buffer, copy a character. */
  datatype Action = Begin(epoch: int) | Poke(i: nat, c: char) | Publish | Load(r: nat) | Copy(r: nat, i: nat)

  /** How many updates have begun. */
  function Begun(s: State): nat {
    |s.published| + if s.writer.Idle? then 0 else 1
  }

  predicate Good(s: State) {
    && Shaped(s.cache)
    && (s.writer.Writing? ==> s.writer.next < 2)
    && (forall r :: 0 <= r < |s.readers| && s.readers[r].Copying? ==> s.readers[r].from < 2)
  }

  ghost predicate Enabled(text: int -> Date, s: State, a: Action)
    requires Good(s)
  {
    match a
    case Begin(_) => s.writer.Idle?
    case Poke(i, _) => s.writer.Writing? && i < DATE_LEN
    case Publish => s.writer.Writing? && s.cache.bufs[s.writer.next] == text(s.cache.last)
    case Load(r) => r < |s.readers|
    case Copy(r, i) => r < |s.readers| && s.readers[r].Copying? && i < DATE_LEN
  }

  function Step(text: int -> Date, s: State, a: Action): (t: State)
    requires Good(s) && Enabled(text, s, a)
    ensures Good(t) && |t.readers| == |s.readers|
  {
    match a
    case Begin(epoch) =>
      if epoch == s.cache.last then s
      else s.(cache := s.cache.(last := epoch), writer := Writing(1 - s.cache.active))
    case Poke(i, c) =>
      var n := s.writer.next;
      s.(cache := s.cache.(bufs := s.cache.bufs[n := s.cache.bufs[n][i := c]]))
    case Publish =>
      s.(cache := s.cache.(active := s.writer.next), writer := Idle, published := s.published + [s.cache.last])
    case Load(r) =>
      s.(readers := s.readers[r := Copying(s.cache.active, |s.published|, map[], false)])
    case Copy(r, i) =>
      var d := s.readers[r];
      var late := d.late || Begun(s) > d.since + 1;
      s.(readers := s.readers[r := Copying(d.from, d.since, d.got[i := s.cache.bufs[d.from][i]], late)])
  }

  /** Within one second an update does not begin. */
  lemma SameSecondIdle(text: int -> Date, s: State)
    requires Good(s) && s.writer.Idle?
    ensures Step(text, s, Begin(s.cache.last)) == s
  {}

  /** `trace` is a run from `s` to `t`. */
  ghost predicate Runs(text: int -> Date, s: State, trace: seq<Action>, t: State)
    requires Good(s)
    decreases |trace|
  {
    if trace == [] then t == s
    else Enabled(text, s, trace[0]) && Runs(text, Step(text, s, trace[0]), trace[1..], t)
  }

  /** After the constructor, which finds a second other than 0, with `n` readers. */
  function Initial(text: int -> Date, epoch: int, n: nat): (s: State)
    ensures Good(s)
  {
    var zeros := seq(DATE_LEN, _ => '\0');
    State(Cache([zeros, text(epoch)], 1, epoch), Idle, [epoch], seq(n, _ => Resting))
  }

  /** What a reader has copied comes from the date that was the newest when it loaded the buffer. */
  ghost predicate ReaderSafe(text: int -> Date, s: State, d: Reader)
    requires Shaped(s.cache)
  {
    d.Copying? ==>
      && 1 <= d.since <= |s.published| && d.from == d.since % 2
      && (Begun(s) <= d.since + 1 ==> s.cache.bufs[d.from] == text(s.published[d.since - 1]))
      && (!d.late ==> OneDate(d.got, text(s.published[d.since - 1])))
  }

  predicate OneDate(got: map<nat, char>, date: Date) {
    forall i :: i in got ==> i < DATE_LEN && got[i] == date[i]
  }

  ghost predicate Safe(text: int -> Date, s: State) {
    && Good(s) && s.published != []
    && s.cache.active == |s.published| % 2
    && s.cache.bufs[s.cache.active] == text(s.published[|s.published| - 1])
    && (s.writer.Writing? ==> s.writer.next != s.cache.active)
    && (forall r :: 0 <= r < |s.readers| ==> ReaderSafe(text, s, s.readers[r]))
  }

  lemma InitialSafe(text: int -> Date, epoch: int, n: nat)
    ensures Safe(text, Initial(text, epoch, n))
  {}

  lemma WriterStepSafe(text: int -> Date, s: State, a: Action)
    requires Safe(text, s) && Enabled(text, s, a) && (a.Begin? || a.Poke? || a.Publish?)
    ensures Safe(text, Step(text, s, a))
  {
    var t := Step(text, s, a);
    forall r | 0 <= r < |t.readers| ensures ReaderSafe(text, t, t.readers[r]) {
      var d := s.readers[r];
      assert ReaderSafe(text, s, d);
      if d.Copying? && Begun(t) <= d.since + 1 {
        ParityApart(|s.published|, d.since);
      }
    }
  }

  lemma ParityApart(n: nat, k: nat)
    requires k <= n <= k + 1
    ensures n % 2 == k % 2 <==> n == k
  {}

  lemma ReaderStepSafe(text: int -> Date, s: State, a: Action)
    requires Safe(text, s) && Enabled(text, s, a) && (a.Load? || a.Copy?)
    ensures Safe(text, Step(text, s, a))
  {
    var t := Step(text, s, a);
    forall r | 0 <= r < |t.readers| ensures ReaderSafe(text, t, t.readers[r]) {
      assert ReaderSafe(text, s, s.readers[r]);
    }
  }

  lemma {:induction false} RunSafe(text: int -> Date, s: State, trace: seq<Action>, t: State)
    requires Safe(text, s) && Runs(text, s, trace, t)
    ensures Safe(text, t)
    decreases |trace|
  {
    hide Step, Enabled, ReaderSafe;
    if trace != [] {
      var a := trace[0];
      assert Safe(text, Step(text, s, a)) by {
        if a.Load? || a.Copy? {
          ReaderStepSafe(text, s, a);
        } else {
          WriterStepSafe(text, s, a);
        }
      }
      RunSafe(text, Step(text, s, a), trace[1..], t);
    }
  }

  /** Safety of every run: the writer never touches the active buffer, which always holds a complete date. */
  lemma ActiveBufferComplete(text: int -> Date, epoch: int, n: nat, trace: seq<Action>, t: State)
    requires Runs(text, Initial(text, epoch, n), trace, t)
    ensures Good(t) && t.published != []
    ensures Shown(t.cache) == text(t.published[|t.published| - 1])
    ensures t.writer.Writing? ==> t.writer.next != t.cache.active
  {
    InitialSafe(text, epoch, n);
    RunSafe(text, Initial(text, epoch, n), trace, t);
  }

  /**
   Safety of readers: whatever the interleaving, a copy that ended before a second update began writing is
   one complete date, the newest at the time the reader loaded the buffer.
   */
  lemma ReaderGetsOneDate(text: int -> Date, epoch: int, n: nat, trace: seq<Action>, t: State, r: nat)
    requires Runs(text, Initial(text, epoch, n), trace, t) && r < |t.readers|
    requires var d := t.readers[r]; d.Copying? && !d.late && forall i :: 0 <= i < DATE_LEN ==> i in d.got
    ensures var d := t.readers[r];
            && 1 <= d.since <= |t.published|
            && seq(DATE_LEN, i requires 0 <= i < DATE_LEN => d.got[i]) == text(t.published[d.since - 1])
  {
    InitialSafe(text, epoch, n);
    RunSafe(text, Initial(text, epoch, n), trace, t);
    assert ReaderSafe(text, t, t.readers[r]);
  }

  // Whole updates

  /** The steps of one update from position `i` on, characters in order. */
  function Pokes(date: Date, i: nat): seq<Action>
    requires i <= DATE_LEN
    decreases DATE_LEN - i
  {
    if i == DATE_LEN then [Publish] else [Poke(i, date[i])] + Pokes(date, i + 1)
  }

  lemma {:induction false} RunsConcat(text: int -> Date, s: State, a: seq<Action>, m: State, b: seq<Action>, t: State)
    requires Good(s) && Runs(text, s, a, m) && Good(m) && Runs(text, m, b, t)
    ensures Runs(text, s, a + b, t)
    decreases |a|
  {
    hide Step, Enabled, Good;
    if a == [] {
      assert a + b == b;
    } else {
      assert (a + b)[0] == a[0] && (a + b)[1..] == a[1..] + b;
      StepGood(text, s, a[0]);
      RunsConcat(text, Step(text, s, a[0]), a[1..], m, b, t);
    }
  }

  lemma StepGood(text: int -> Date, s: State, a: Action)
    requires Good(s) && Enabled(text, s, a)
    ensures Good(Step(text, s, a))
  {}

  lemma {:induction false} PokesRun(text: int -> Date, s: State, i: nat, t: State)
    requires Good(s) && s.writer.Writing? && i <= DATE_LEN
    requires s.cache.bufs[s.writer.next][..i] == text(s.cache.last)[..i]
    requires t == State(Cache(s.cache.bufs[s.writer.next := text(s.cache.last)], s.writer.next, s.cache.last),
                        Idle, s.published + [s.cache.last], s.readers)
    ensures Runs(text, s, Pokes(text(s.cache.last), i), t)
    decreases DATE_LEN - i
  {
    var date, n := text(s.cache.last), s.writer.next;
    if i == DATE_LEN {
      assert s.cache.bufs[n] == s.cache.bufs[n][..i] == date[..i] == date;
      assert s.cache.bufs[n := date] == s.cache.bufs;
      assert Runs(text, Step(text, s, Publish), [], t);
      assert Pokes(date, i)[1..] == [];
    } else {
      var a := Poke(i, date[i]);
      var u := Step(text, s, a);
      assert u.cache.bufs[n][..i + 1] == s.cache.bufs[n][..i] + [date[i]] == date[..i] + [date[i]] == date[..i + 1];
      assert u.cache.bufs[n := date] == s.cache.bufs[n := date];
      PokesRun(text, u, i + 1, t);
      assert Pokes(date, i)[1..] == Pokes(date, i + 1);
    }
  }

  function AfterUpdate(text: int -> Date, s: State, epoch: int): (t: State)
    requires Good(s)
    ensures Good(t)
  {
    s.(cache := Updated(s.cache, epoch, text(epoch)), published := s.published + [epoch])
  }

  /** An update run to its end without interruption does what the method does. */
  lemma WholeUpdate(text: int -> Date, s: State, epoch: int)
    requires Good(s) && s.writer.Idle? && epoch != s.cache.last
    ensures Runs(text, s, [Begin(epoch)] + Pokes(text(epoch), 0),
                 AfterUpdate(text, s, epoch))
  {
    var u := Step(text, s, Begin(epoch));
    PokesRun(text, u, 0, AfterUpdate(text, s, epoch));
    assert ([Begin(epoch)] + Pokes(text(epoch), 0))[1..] == Pokes(text(epoch), 0);
  }

  // The bound is sharp

  /** The steps by which reader 0 copies the characters from `i` to `j`. */
  function Copies(i: nat, j: nat): seq<Action>
    requires i <= j
    decreases j - i
  {
    if i == j then [] else [Copy(0, i)] + Copies(i + 1, j)
  }

  /** Reader 0 once it has copied the characters from `i` to `j` of its buffer in `s`. */
  function Copied(s: State, i: nat, j: nat): State
    requires Good(s) && s.readers != [] && s.readers[0].Copying? && i <= j <= DATE_LEN
  {
    var d := s.readers[0];
    var read := map k | i <= k < j :: s.cache.bufs[d.from][k];
    s.(readers := s.readers[0 := Copying(d.from, d.since, d.got + read, d.late || (i < j && Begun(s) > d.since + 1))])
  }

  lemma {:induction false} CopiesRun(text: int -> Date, s: State, i: nat, j: nat)
    requires Good(s) && s.readers != [] && s.readers[0].Copying? && i <= j <= DATE_LEN
    ensures Runs(text, s, Copies(i, j), Copied(s, i, j))
    decreases j - i
  {
    if i == j {
      assert Copied(s, i, j) == s by { CopiedNothing(s, i); }
    } else {
      hide Copied, Step;
      CopiedOne(text, s, i, j);
      CopiesRun(text, Step(text, s, Copy(0, i)), i + 1, j);
      assert Copies(i, j)[1..] == Copies(i + 1, j);
    }
  }

  lemma CopiedNothing(s: State, i: nat)
    requires Good(s) && s.readers != [] && s.readers[0].Copying? && i <= DATE_LEN
    ensures Copied(s, i, i) == s
  {
    var d := s.readers[0];
    assert d.got + map[] == d.got;
    assert s.readers[0 := d] == s.readers;
  }

  lemma CopiedOne(text: int -> Date, s: State, i: nat, j: nat)
    requires Good(s) && s.readers != [] && s.readers[0].Copying? && i < j <= DATE_LEN
    ensures var u := Step(text, s, Copy(0, i));
            && u.readers != [] && u.readers[0].Copying? && Good(u)
            && Copied(u, i + 1, j) == Copied(s, i, j)
  {
    var d := s.readers[0];
    var u := Step(text, s, Copy(0, i));
    var read := map k | i <= k < j :: s.cache.bufs[d.from][k];
    var after := map k | i + 1 <= k < j :: s.cache.bufs[d.from][k];
    assert d.got[i := s.cache.bufs[d.from][i]] + after == d.got + read;
  }

  /** A reader that copies at once, even in the middle of an update, gets what is shown, and is not late. */
  lemma PromptReader(text: int -> Date, s: State)
    requires Good(s) && s.readers != []
    ensures var loaded := Step(text, s, Load(0));
            var t := Copied(loaded, 0, DATE_LEN);
            && Runs(text, s, [Load(0)] + Copies(0, DATE_LEN), t)
            && t.readers[0].Copying? && !t.readers[0].late
            && forall i :: 0 <= i < DATE_LEN ==> i in t.readers[0].got && t.readers[0].got[i] == Shown(s.cache)[i]
  {
    var loaded := Step(text, s, Load(0));
    assert Runs(text, s, [Load(0)], loaded) by {
      assert Runs(text, loaded, [], loaded);
    }
    CopiesRun(text, loaded, 0, DATE_LEN);
    hide Runs;
    RunsConcat(text, s, [Load(0)], loaded, Copies(0, DATE_LEN), Copied(loaded, 0, DATE_LEN));
  }

  ghost predicate Reaches(text: int -> Date, s: State, t: State)
    requires Good(s)
  {
    exists trace :: Runs(text, s, trace, t)
  }

  lemma ReachesOn(text: int -> Date, s: State, m: State, trace: seq<Action>, t: State)
    requires Good(s) && Good(m) && Reaches(text, s, m) && Runs(text, m, trace, t)
    ensures Reaches(text, s, t)
  {
    var first :| Runs(text, s, first, m);
    hide Good, Runs;
    RunsConcat(text, s, first, m, trace, t);
  }

  /** Load, copy `k` characters, two whole updates, copy the rest. */
  lemma TornRun(text: int -> Date, e0: int, e1: int, e2: int, k: nat)
    requires e1 != e0 && e2 != e1 && k <= DATE_LEN
    ensures var loaded := Step(text, Initial(text, e0, 1), Load(0));
            var updated := AfterUpdate(text, AfterUpdate(text, Copied(loaded, 0, k), e1), e2);
            Reaches(text, Initial(text, e0, 1), Copied(updated, k, DATE_LEN))
  {
    var s := Initial(text, e0, 1);
    var s1 := Step(text, s, Load(0));
    assert Runs(text, s, [Load(0)], s1) by {
      assert Runs(text, s1, [], s1);
    }
    hide Runs, Step, Updated;
    CopiesRun(text, s1, 0, k);
    var s2 := Copied(s1, 0, k);
    ReachesOn(text, s, s1, Copies(0, k), s2);
    WholeUpdate(text, s2, e1);
    var s3 := AfterUpdate(text, s2, e1);
    ReachesOn(text, s, s2, [Begin(e1)] + Pokes(text(e1), 0), s3);
    assert s3.cache.last == e1 by { UpdatedLast(s2.cache, e1, text(e1)); }
    WholeUpdate(text, s3, e2);
    var s4 := AfterUpdate(text, s3, e2);
    ReachesOn(text, s, s3, [Begin(e2)] + Pokes(text(e2), 0), s4);
    CopiesRun(text, s4, k, DATE_LEN);
    ReachesOn(text, s, s4, Copies(k, DATE_LEN), Copied(s4, k, DATE_LEN));
  }

  lemma UpdatedLast(c: Cache, epoch: int, date: Date)
    requires Shaped(c)
    ensures Updated(c, epoch, date).last == epoch
  {}

  /** With two whole updates in the middle of a copy, a reader gets the front of one date and the rest of another. */
  lemma TornRead(text: int -> Date, e0: int, e1: int, e2: int, k: nat)
    requires e1 != e0 && e2 != e1 && k <= DATE_LEN
    ensures exists t: State ::
              && Reaches(text, Initial(text, e0, 1), t) && |t.readers| == 1 && t.readers[0].Copying?
              && (forall i :: 0 <= i < DATE_LEN ==> i in t.readers[0].got)
              && seq(DATE_LEN, i requires 0 <= i < DATE_LEN => t.readers[0].got[i]) == text(e0)[..k] + text(e2)[k..]
  {
    TornRun(text, e0, e1, e2, k);
    hide Reaches, Runs;
    var loaded := Step(text, Initial(text, e0, 1), Load(0));
    var s2 := Copied(loaded, 0, k);
    var s3 := AfterUpdate(text, s2, e1);
    var s4 := AfterUpdate(text, s3, e2);
    var t := Copied(s4, k, DATE_LEN);
    assert s4.cache.bufs[1] == text(e2);
    var got := t.readers[0].got;
    assert forall i :: 0 <= i < k ==> i in got && got[i] == text(e0)[i];
    assert forall i :: k <= i < DATE_LEN ==> i in got && got[i] == text(e2)[i];
    assert seq(DATE_LEN, i requires 0 <= i < DATE_LEN => got[i]) == text(e0)[..k] + text(e2)[k..];
  }
}
