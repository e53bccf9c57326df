/**
 When the cutting of a stream into reads matters. A head beyond the limit is refused when the limit is
 reached before its end, and accepted when its end is in the same read that crosses the limit.
 */
module OversizeHeads {
  import opened Text
  import opened Buffers
  import opened KeepAlive
  import opened Fragmentation

  // How large the buffer can be when a head is found

  function Least(a: nat, b: nat): nat {
    if a < b then a else b
  }

  /**
   The most the buffer can hold after the last read of a head that is permitted: it doubles until there is
   room for a whole read behind the last byte below the limit.
   */
  function Reach(max: nat, capacity: nat): (r: nat)
    requires max > 0 && capacity > 0
    ensures capacity <= r && max - 1 + READ_SPACE <= r
    ensures r == capacity || r < 2 * (max - 1 + READ_SPACE)
    decreases if capacity < max + READ_SPACE then max + READ_SPACE - capacity else 0
  {
    if capacity < max - 1 + READ_SPACE then Reach(max, 2 * capacity) else capacity
  }

  /** With the first buffer of 8192 bytes, a limit of 4097 still fits one read of 4096 bytes, and 4098 does not. */
  lemma ReadsOfFourThousand()
    ensures Reach(4097, 8192) == 8192 && Reach(4098, 8192) == 16384
  {}

  /** The capacities with which a head that ends at `e` can be found, starting from `capacity`. */
  function HeadCaps(e: nat, max: nat, capacity: nat): (caps: set<nat>)
    requires capacity > 0
    ensures forall c :: c in caps ==> capacity <= c && e <= c
    decreases if capacity < max + READ_SPACE then max + READ_SPACE - capacity else 0
  {
    (if e <= capacity then {capacity} else {})
    + (if capacity + 1 < Least(e, max) + READ_SPACE then HeadCaps(e, max, 2 * capacity) else {})
  }

  lemma {:induction false} ReachIsLargest(e: nat, max: nat, capacity: nat)
    requires max > 0 && e > 0 && capacity > 0
    ensures forall c :: c in HeadCaps(e, max, capacity) ==> c <= Reach(Least(e, max), capacity)
    ensures e <= Reach(Least(e, max), capacity) ==> Reach(Least(e, max), capacity) in HeadCaps(e, max, capacity)
    decreases if capacity < max + READ_SPACE then max + READ_SPACE - capacity else 0
  {
    if capacity + 1 < Least(e, max) + READ_SPACE {
      ReachIsLargest(e, max, 2 * capacity);
    }
  }

  /** Making room for a permitted read does not change what can be reached. */
  lemma ReachGrown(max: nat, capacity: nat, size: nat)
    requires size < max && size <= capacity && READ_SPACE <= capacity
    ensures Reach(max, Grown(capacity, size, READ_SPACE)) == Reach(max, capacity)
  {}

  /** Whatever the schedule, a head is found with one of these capacities. */
  lemma {:induction false} FoundWith(max: nat, schedule: Schedule, c: Conn)
    requires |c.buf| <= c.capacity && READ_SPACE <= c.capacity && HeaderEnd(c.buf) == 0
    ensures var (r, d) := FillHead(max, schedule, c);
            r > 0 ==> |c.buf| < max && r == HeaderEnd(Stream(c)) && d.capacity in HeadCaps(r, max, c.capacity)
    decreases |c.unread|
  {
    hide HeaderEnd, Received;
    FillHeadFinds(max, schedule, c);
    var e := HeaderEnd(Stream(c));
    if FillHead(max, schedule, c).0 > 0 {
      HeaderEndPrefix(c.buf, c.unread);
      var d := Received(c, schedule);
      assert d.capacity == Grown(c.capacity, |c.buf|, READ_SPACE) by { ReceivedCapacity(c, schedule); }
      assert |c.buf| < Least(e, max);
      if HeaderEnd(d.buf) == 0 {
        FoundWith(max, schedule, d);
      }
    }
  }

  lemma ReceivedCapacity(c: Conn, schedule: Schedule)
    requires |c.buf| <= c.capacity && c.unread != ""
    ensures Received(c, schedule).capacity == Grown(c.capacity, |c.buf|, READ_SPACE)
    ensures Received(c, schedule).turn == c.turn + 1
  {}

  // Choosing a schedule

  lemma {:induction false} TurnsGrow(max: nat, schedule: Schedule, c: Conn)
    requires |c.buf| <= c.capacity
    ensures FillHead(max, schedule, c).1.turn >= c.turn
    decreases |c.unread|
  {
    hide HeaderEnd;
    if |c.buf| < max && c.unread != "" && HeaderEnd(Received(c, schedule).buf) == 0 {
      TurnsGrow(max, schedule, Received(c, schedule));
    }
  }

  /** Only the turns that are taken matter. */
  lemma {:induction false} SameTurns(max: nat, a: Schedule, b: Schedule, c: Conn)
    requires |c.buf| <= c.capacity
    requires forall k :: c.turn <= k < FillHead(max, a, c).1.turn ==> a(k) == b(k)
    ensures FillHead(max, b, c) == FillHead(max, a, c)
    decreases |c.unread|
  {
    hide HeaderEnd;
    if |c.buf| < max && c.unread != "" {
      var d := Received(c, a);
      if HeaderEnd(d.buf) == 0 {
        TurnsGrow(max, a, d);
        assert a(c.turn) == b(c.turn);
        SameTurns(max, a, b, d);
      }
    }
  }

  /** One read that ends at position `j` of the stream. */
  lemma ReadUpTo(s: string, i: nat, j: nat, capacity: nat, turn: nat, schedule: Schedule)
    requires i <= capacity && i < j <= |s| && schedule(turn) == j - i
    requires j <= Grown(capacity, i, READ_SPACE)
    ensures Received(Conn(s[..i], capacity, s[i..], turn), schedule)
         == Conn(s[..j], Grown(capacity, i, READ_SPACE), s[j..], turn + 1)
  {
    assert s[i..][..j - i] == s[i..j] && s[..i] + s[i..j] == s[..j];
    assert s[i..][j - i..] == s[j..];
  }

  lemma HeadWithin(s: string, j: nat)
    requires j <= |s|
    ensures HeaderEnd(s[..j]) == if HeaderEnd(s) <= j then HeaderEnd(s) else 0
  {
    assert s[..j] + s[j..] == s;
    HeaderEndPrefix(s[..j], s[j..]);
  }

  /** Every one of the capacities can be had, with nothing behind the head in the buffer. */
  lemma {:induction false} Steered(max: nat, s: string, i: nat, capacity: nat, turn: nat, target: nat)
    returns (schedule: Schedule)
    requires i < Least(HeaderEnd(s), max) && i <= capacity && READ_SPACE <= capacity
    requires target in HeadCaps(HeaderEnd(s), max, Grown(capacity, i, READ_SPACE))
    ensures var (r, d) := FillHead(max, schedule, Conn(s[..i], capacity, s[i..], turn));
            && r == HeaderEnd(s) && d.buf == s[..r] && d.unread == s[r..] && d.capacity == target && d.turn > turn
    decreases HeaderEnd(s) - i
  {
    hide HeaderEnd, Received, FillHead;
    var e, g := HeaderEnd(s), Grown(capacity, i, READ_SPACE);
    var c := Conn(s[..i], capacity, s[i..], turn);
    if target == g {
      schedule := (k: nat) => e - i;
      ReadUpTo(s, i, e, capacity, turn, schedule);
      HeadWithin(s, e);
      FillStep(max, schedule, c);
    } else {
      var j := g + 1 - READ_SPACE;
      var rest := Steered(max, s, j, g, turn + 1, target);
      schedule := (k: nat) => if k == turn then j - i else rest(k);
      ReadUpTo(s, i, j, capacity, turn, schedule);
      HeadWithin(s, j);
      FillStep(max, schedule, c);
      SameTurns(max, rest, schedule, Conn(s[..j], g, s[j..], turn + 1));
    }
  }

  lemma FillStep(max: nat, schedule: Schedule, c: Conn)
    requires |c.buf| <= c.capacity && |c.buf| < max && c.unread != ""
    ensures var d := Received(c, schedule);
            FillHead(max, schedule, c)
            == if HeaderEnd(d.buf) > 0 then (HeaderEnd(d.buf), d) else FillHead(max, schedule, d)
  {
    hide HeaderEnd, Received;
  }

  /**
   Exactly when a head can be accepted: it is buffered already, or the limit still permits a read and the
   head ends within what the buffer can hold by then.
   */
  lemma HeadAcceptable(max: nat, c: Conn)
    requires |c.buf| <= c.capacity && READ_SPACE <= c.capacity
    ensures (exists schedule: Schedule :: ReadHead(max, schedule, c).0 > 0)
       <==> HeaderEnd(c.buf) > 0 || (|c.buf| < max && 0 < HeaderEnd(Stream(c)) <= Reach(max, c.capacity))
  {
    hide HeaderEnd, FillHead, Reach, HeadCaps;
    var s, i := Stream(c), |c.buf|;
    var e := HeaderEnd(s);
    HeaderEndPrefix(c.buf, c.unread);
    if HeaderEnd(c.buf) > 0 {
      assert ReadHead(max, (k: nat) => 1, c).0 > 0;
    } else {
      forall schedule: Schedule | ReadHead(max, schedule, c).0 > 0
        ensures i < max && 0 < e <= Reach(max, c.capacity)
      {
        FoundWith(max, schedule, c);
        ReachIsLargest(e, max, c.capacity);
        LeastReach(e, max, c.capacity);
      }
      if i < max && 0 < e <= Reach(max, c.capacity) {
        var g := Grown(c.capacity, i, READ_SPACE);
        ReachGrown(max, c.capacity, i);
        ReachIsLargest(e, max, g);
        LeastReach(e, max, g);
        assert s[..i] == c.buf && s[i..] == c.unread;
        var schedule := Steered(max, s, i, c.capacity, c.turn, Reach(Least(e, max), g));
        assert ReadHead(max, schedule, c).0 > 0;
      }
    }
  }

  /** For a head within the limit the question whether it can be reached does not arise. */
  lemma LeastReach(e: nat, max: nat, capacity: nat)
    requires max > 0 && e > 0 && capacity > 0
    ensures e <= Reach(Least(e, max), capacity) <==> e <= Reach(max, capacity)
  {}

  /** A head beyond the limit that fits the first buffer: accepted when it comes at once, refused byte by byte. */
  lemma OversizeHeadAccepted(max: nat, s: string)
    requires 0 < max < HeaderEnd(s) <= 8192
    ensures ReadHead(max, (k: nat) => 8192, Start(s)).0 == HeaderEnd(s)
    ensures ReadHead(max, ByteByByte, Start(s)).0 == 0
  {
    ReadByteByByte(max, s, 8192, 0);
    hide FillHead, Received;
    var all: Schedule := (k: nat) => 8192;
    var c := Start(s);
    FillStep(max, all, c);
    var n := Least(8192, |s|);
    assert Received(c, all).buf == s[..n] by { ReadAtOnce(s, n, all); }
    HeadWithin(s, n);
    assert HeaderEnd("") == 0;
  }

  lemma ReadAtOnce(s: string, n: nat, schedule: Schedule)
    requires s != "" && n == Least(8192, |s|) && schedule(0) == 8192
    ensures Received(Start(s), schedule).buf == s[..n]
  {
    assert "" + s[..n] == s[..n];
  }
}
