/**
 The reusable byte buffers of a connection. `WriteBuffer` collects a response; `ReadBuffer` receives
 from the socket at the back and is consumed at the front. Both grow by at least doubling.
 */
module Buffers {
  import opened Text

  /** Capacity after asking for `n` more bytes behind `size` used ones. */
  function Grown(capacity: nat, size: nat, n: nat): nat {
    if size + n <= capacity then capacity
    else if capacity * 2 >= size + n then capacity * 2
    else size + n
  }

  /** What `consume(n)` leaves. */
  function Dropped(s: string, n: nat): string {
    if n >= |s| then "" else s[n..]
  }

  /** The least capacity with enough room that is the old one or at least twice the old one. */
  lemma GrownIsLeast(capacity: nat, size: nat, n: nat, other: nat)
    ensures var g := Grown(capacity, size, n); size + n <= g && (g == capacity || g >= 2 * capacity)
    ensures size + n <= other && (other == capacity || other >= 2 * capacity) ==> Grown(capacity, size, n) <= other
  {}

  /** What is consumed and what is left make up the whole. */
  lemma DroppedRest(taken: string, rest: string, n: nat)
    ensures Dropped(taken + rest, |taken|) == rest
    ensures n >= |taken| ==> Dropped(taken, n) == ""
  {}

  datatype Op = Append(s: string) | Push(c: char) | Ensure(n: nat) | Consume(n: nat) | Clear

  /**
   The abstract state of a write buffer: its bytes, its capacity, the bytes copied by all resizes so far
   (a resize copies the whole old block) and the largest size + additional ever asked for.
   */
  datatype Buf = Buf(contents: string, capacity: nat, copied: nat, peak: nat)

  function Ensured(b: Buf, n: nat): Buf {
    var demand := |b.contents| + n;
    Buf(b.contents,
        Grown(b.capacity, |b.contents|, n),
        b.copied + (if demand > b.capacity then b.capacity else 0),
        if demand > b.peak then demand else b.peak)
  }

  function Step(b: Buf, op: Op): Buf {
    match op
    case Append(s) => var e := Ensured(b, |s|); e.(contents := b.contents + s)
    case Push(c) => var e := Ensured(b, 1); e.(contents := b.contents + [c])
    case Ensure(n) => Ensured(b, n)
    case Consume(n) => b.(contents := Dropped(b.contents, n))
    case Clear => b.(contents := "")
  }

  function Run(b: Buf, ops: seq<Op>): Buf
    decreases |ops|
  {
    if ops == [] then b else Run(Step(b, ops[0]), ops[1..])
  }

  /** A resize copies the whole old block, and nothing else is counted. */
  lemma GrowthCopies(b: Buf, op: Op)
    ensures var r := Step(b, op);
            r.copied == b.copied + if r.capacity == b.capacity then 0 else b.capacity
  {}

  /** The same operation on a plain byte string. */
  function PlainStep(s: string, op: Op): string {
    match op
    case Append(u) => s + u
    case Push(c) => s + [c]
    case Ensure(n) => s
    case Consume(n) => Dropped(s, n)
    case Clear => ""
  }

  function Plain(s: string, ops: seq<Op>): string
    decreases |ops|
  {
    if ops == [] then s else Plain(PlainStep(s, ops[0]), ops[1..])
  }

  function Max(a: nat, b: nat): nat {
    if a < b then b else a
  }

  /** The most bytes the string ever holds, or is asked to make room for, during a run. */
  function LargestDemand(s: string, ops: seq<Op>): (d: nat)
    ensures d >= |s|
    decreases |ops|
  {
    if ops == [] then |s|
    else
      var here := if ops[0].Ensure? then |s| + ops[0].n else |s|;
      Max(here, LargestDemand(PlainStep(s, ops[0]), ops[1..]))
  }

  /** Growth accounting of a buffer created with `initial` bytes. */
  predicate Amortised(b: Buf, initial: nat) {
    && |b.contents| <= b.capacity
    && initial <= b.capacity
    && b.copied <= b.capacity - initial
    && (b.capacity <= initial || b.capacity <= 2 * b.peak)
  }

  lemma StepInvariant(b: Buf, initial: nat, op: Op)
    requires Amortised(b, initial) && |b.contents| <= b.peak
    ensures var r := Step(b, op);
            && r.contents == PlainStep(b.contents, op)
            && Amortised(r, initial)
            && r.peak == Max(b.peak, Max(|r.contents|, if op.Ensure? then |b.contents| + op.n else 0))
  {}

  lemma {:induction false} RunInvariant(b: Buf, initial: nat, ops: seq<Op>)
    requires Amortised(b, initial) && |b.contents| <= b.peak
    ensures var r := Run(b, ops);
            && r.contents == Plain(b.contents, ops)
            && Amortised(r, initial)
            && r.peak == Max(b.peak, LargestDemand(b.contents, ops))
    decreases |ops|
  {
    if ops != [] {
      StepInvariant(b, initial, ops[0]);
      hide Step, Amortised, PlainStep;
      RunInvariant(Step(b, ops[0]), initial, ops[1..]);
    }
  }

  /**
   Every run of operations on a fresh buffer leaves the plain byte string, copies at most
   `final capacity - initial capacity` bytes in all its resizes together, and ends with a capacity of
   at most twice the largest demand, unless it started with more.
   */
  lemma RunIsPlainAndAmortised(initial: nat, ops: seq<Op>)
    ensures var r := Run(Buf("", initial, 0, 0), ops);
            && r.contents == Plain("", ops)
            && |r.contents| <= r.capacity
            && initial <= r.capacity
            && r.copied <= r.capacity - initial
            && r.capacity <= Max(initial, 2 * LargestDemand("", ops))
  {
    RunInvariant(Buf("", initial, 0, 0), initial, ops);
  }

  class WriteBuffer {
    var data: array<char>
    var size: nat
    ghost const initial: nat
    ghost var copied: nat
    ghost var peak: nat

    ghost predicate Valid()
      reads this, data
    {
      size <= data.Length && Amortised(State(), initial)
    }

    ghost function Contents(): string
      requires size <= data.Length
      reads this, data
    {
      data[..size]
    }

    ghost function State(): Buf
      requires size <= data.Length
      reads this, data
    {
      Buf(Contents(), data.Length, copied, peak)
    }

    constructor (initialCapacity: nat)
      ensures Valid() && fresh(data) && initial == initialCapacity
      ensures State() == Buf("", initialCapacity, 0, 0)
    {
      data := new char[initialCapacity];
      size := 0;
      initial, copied, peak := initialCapacity, 0, 0;
    }

    method EnsureSpace(additional: nat)
      requires Valid()
      modifies this
      ensures Valid() && (data == old(data) || fresh(data))
      ensures State() == Step(old(State()), Ensure(additional))
      ensures size + additional <= data.Length
    {
      if size + additional > peak {
        peak := size + additional;
      }
      if size + additional > data.Length {
        copied := copied + data.Length;
        data := Resized(data, if data.Length * 2 >= size + additional then data.Length * 2 else size + additional);
      }
    }

    method AppendAll(s: string)
      requires Valid()
      modifies this, data
      ensures Valid() && (data == old(data) || fresh(data))
      ensures State() == Step(old(State()), Append(s))
      ensures Contents() == old(Contents()) + s
    {
      EnsureSpace(|s|);
      ghost var was := data[..size];
      forall i | 0 <= i < |s| {
        data[size + i] := s[i];
      }
      size := size + |s|;
      assert data[..size] == was + s;
    }

    method PushOne(c: char)
      requires Valid()
      modifies this, data
      ensures Valid() && (data == old(data) || fresh(data))
      ensures State() == Step(old(State()), Push(c))
      ensures Contents() == old(Contents()) + [c]
    {
      EnsureSpace(1);
      data[size] := c;
      size := size + 1;
    }

    method ConsumeFront(n: nat)
      requires Valid()
      modifies this, data
      ensures Valid() && data == old(data)
      ensures State() == Step(old(State()), Consume(n))
    {
      size := MoveFront(data, size, n);
    }

    method Reset()
      requires Valid()
      modifies this`size
      ensures Valid() && State() == Step(old(State()), Clear)
      ensures Contents() == ""
    {
      size := 0;
    }
  }

  /** `vector::resize` to a larger size: a new block that starts with the old bytes. */
  method Resized(old_: array<char>, capacity: nat) returns (data: array<char>)
    requires old_.Length <= capacity
    ensures fresh(data) && data.Length == capacity
    ensures data[..old_.Length] == old_[..]
  {
    data := new char[capacity];
    forall i | 0 <= i < old_.Length {
      data[i] := old_[i];
    }
  }

  /** The `memmove` of `consume`; returns the new size. */
  method MoveFront(data: array<char>, size: nat, n: nat) returns (left: nat)
    requires size <= data.Length
    modifies data
    ensures left <= size && data[..left] == Dropped(old(data[..size]), n)
  {
    if n >= size {
      left := 0;
    } else {
      forall i | 0 <= i < size - n {
        data[i] := data[i + n];
      }
      left := size - n;
      assert data[..left] == old(data[..size])[n..];
    }
  }

  class ReadBuffer {
    var data: array<char>
    var size: nat

    ghost predicate Valid()
      reads this, data
    {
      size <= data.Length
    }

    ghost function Contents(): string
      requires Valid()
      reads this, data
    {
      data[..size]
    }

    constructor (initialCapacity: nat)
      ensures Valid() && fresh(data) && data.Length == initialCapacity && Contents() == ""
    {
      data := new char[initialCapacity];
      size := 0;
    }

    /** Grows so that at least `n` bytes can be written behind the used ones. */
    method EnsureWrite(n: nat)
      requires Valid()
      modifies this
      ensures Valid() && (data == old(data) || fresh(data))
      ensures Contents() == old(Contents())
      ensures data.Length == Grown(old(data.Length), size, n) && size + n <= data.Length
    {
      if data.Length - size < n {
        ghost var was := data[..size];
        data := Resized(data, if data.Length * 2 >= size + n then data.Length * 2 else size + n);
        assert data[..size] == was;
      }
    }

    /** A socket read of `s` at `write_pos()`, followed by `advance_write(|s|)`. */
    method Receive(s: string)
      requires Valid() && size + |s| <= data.Length
      modifies this`size, data
      ensures Valid() && Contents() == old(Contents()) + s
    {
      ghost var was := data[..size];
      forall i | 0 <= i < |s| {
        data[size + i] := s[i];
      }
      size := size + |s|;
      assert data[..size] == was + s;
    }

    method ConsumeFront(n: nat)
      requires Valid()
      modifies this`size, data
      ensures Valid() && Contents() == Dropped(old(Contents()), n)
    {
      size := MoveFront(data, size, n);
    }

    method Reset()
      requires Valid()
      modifies this`size
      ensures Valid() && Contents() == ""
    {
      size := 0;
    }

    /** The buffer's own, non-incremental search for the end of the head; 0 stands for a null pointer. */
    method FindEnd() returns (end: nat)
      requires Valid()
      ensures end == HeaderEnd(Contents())
    {
      if size < 4 {
        return 0;
      }
      var p := 0;
      while p < size - 3
        invariant 0 <= p <= size - 3
        invariant forall j :: 0 <= j < p ==> !TermAt(Contents(), j)
      {
        if data[p] == '\r' && data[p + 1] == '\n' && data[p + 2] == '\r' && data[p + 3] == '\n' {
          assert TermAt(Contents(), p);
          return p + 4;
        }
        p := p + 1;
      }
      return 0;
    }
  }
}
