/**
 The incremental scan for the end of a header block: 16 bytes at a time through a bit mask of the
 carriage returns, then a scalar tail. It starts 3 bytes before the new data, in case the blank line
 straddles two reads.
 */
module HeaderScan {
  import opened Text

  /** Bit `k` of a 16-bit mask. */
  predicate Bit(m: bv16, k: nat)
    requires k < 16
  {
    (m >> k) & 1 == 1
  }

  function WithBit(m: bv16, n: nat): bv16
    requires n < 16
  {
    m | (1 << n)
  }

  /** `_mm_cmpeq_epi8` against CR, followed by `_mm_movemask_epi8`: bit `k` is set when byte `k` is a CR. */
  function CrMask(chunk: string): bv16
    requires |chunk| <= 16
  {
    if chunk == "" then 0
    else
      var n := |chunk| - 1;
      var m := CrMask(chunk[..n]);
      if chunk[n] == '\r' then WithBit(m, n) else m
  }

  lemma {:induction false} CrMaskBits(chunk: string, k: nat)
    requires |chunk| <= 16 && k < 16
    ensures Bit(CrMask(chunk), k) <==> k < |chunk| && chunk[k] == '\r'
  {
    hide Bit, WithBit;
    NoBit(k);
    if chunk != "" {
      CrMaskBits(chunk[..|chunk| - 1], k);
      SetBit(CrMask(chunk[..|chunk| - 1]), |chunk| - 1, k);
    }
  }

  /** `__builtin_ctz`: the position of the lowest set bit of a non-zero mask. */
  function Ctz(m: bv16): (c: nat)
    requires m != 0
    ensures c < 16
  {
    CtzFrom(m, 0)
  }

  function CtzFrom(m: bv16, k: nat): (c: nat)
    requires k < 16
    ensures k <= c < 16
    decreases 16 - k
  {
    if k == 15 || Bit(m, k) then k else CtzFrom(m, k + 1)
  }

  /** No bit below position `k` is set. */
  predicate LowClear(m: bv16, k: nat)
    requires k < 16
  {
    m & ((1 << k) - 1) == 0
  }

  lemma {:induction false} CtzFromLowest(m: bv16, k: nat)
    requires k < 16 && m != 0 && LowClear(m, k)
    ensures Bit(m, CtzFrom(m, k)) && LowClear(m, CtzFrom(m, k))
    decreases 16 - k
  {
    hide Bit, LowClear;
    if !Bit(m, k) {
      NotTheLast(m, k);
      NextBit(m, k);
      CtzFromLowest(m, k + 1);
    }
  }

  /** The step of the bit iteration. */
  function WithoutLowest(m: bv16): bv16 {
    m & (m - 1)
  }

  /** `m & (m - 1)` clears the lowest set bit and no other. */
  lemma ClearLowest(m: bv16)
    requires m != 0
    ensures Bit(m, Ctz(m)) && WithoutLowest(m) < m
    ensures forall k :: 0 <= k < 16 ==> (Bit(WithoutLowest(m), k) <==> Bit(m, k) && k != Ctz(m))
    ensures forall k :: 0 <= k < Ctz(m) ==> !Bit(m, k)
  {
    assert LowClear(m, 0);
    hide Bit, LowClear, WithoutLowest;
    CtzFromLowest(m, 0);
    Decreases(m);
    forall k | 0 <= k < 16
      ensures Bit(WithoutLowest(m), k) <==> Bit(m, k) && k != Ctz(m)
      ensures k < Ctz(m) ==> !Bit(m, k)
    {
      ClearBit(m, Ctz(m), k);
      if k < Ctz(m) {
        LowBit(m, Ctz(m), k);
      }
    }
  }

  lemma NotTheLast(m: bv16, k: nat)
    requires k < 16 && m != 0 && LowClear(m, k) && !Bit(m, k)
    ensures k < 15
  {
    LastBitV(m, k as bv16);
  }

  lemma NextBit(m: bv16, k: nat)
    requires k < 15 && LowClear(m, k) && !Bit(m, k)
    ensures LowClear(m, k + 1)
  {
    var one: bv16 := 1;
    SingleBit(m, k);
    ShiftOne(k);
    DoubledV(m, one << k);
  }

  lemma SingleBit(m: bv16, k: nat)
    requires k < 16
    ensures var p := (1 as bv16) << k;
            (Bit(m, k) <==> m & p != 0) && p != 0 && p & (p - 1) == 0
  {}

  lemma ShiftOne(k: nat)
    requires k < 15
    ensures (1 as bv16) << (k + 1) == ((1 as bv16) << k) << 1
  {}

  lemma ClearBit(m: bv16, c: nat, k: nat)
    requires c < 16 && k < 16 && Bit(m, c) && LowClear(m, c)
    ensures Bit(WithoutLowest(m), k) <==> Bit(m, k) && k != c
  {
    hide Bit, LowClear, WithoutLowest;
    if k < c {
      LowBit(m, c, k);
      NoNewBit(m, k);
    } else if k == c {
      OwnBit(m, c);
    } else {
      HighBit(m, c, k);
    }
  }

  lemma NoNewBit(m: bv16, k: nat)
    requires k < 16
    ensures Bit(WithoutLowest(m), k) ==> Bit(m, k)
  {
    if Bit(WithoutLowest(m), k) {
      NoNewBitV(m, k as bv16);
    }
  }

  lemma OwnBit(m: bv16, c: nat)
    requires c < 16 && Bit(m, c) && LowClear(m, c)
    ensures !Bit(WithoutLowest(m), c)
  {
    OwnBitV(m, c as bv16);
  }

  lemma HighBit(m: bv16, c: nat, k: nat)
    requires c < k < 16 && Bit(m, c) && LowClear(m, c)
    ensures Bit(WithoutLowest(m), k) == Bit(m, k)
  {
    HighBitV(m, c as bv16, k as bv16);
  }

  lemma LowBit(m: bv16, c: nat, k: nat)
    requires k < c < 16 && LowClear(m, c)
    ensures !Bit(m, k)
  {
    LowBitV(m, c as bv16, k as bv16);
  }

  lemma Decreases(m: bv16)
    requires m != 0
    ensures WithoutLowest(m) < m
  {}

  lemma SetBit(m: bv16, n: nat, k: nat)
    requires n < 16 && k < 16
    ensures Bit(WithBit(m, n), k) <==> Bit(m, k) || k == n
  {
    SetBitV(m, n as bv16, k as bv16);
  }

  // The same facts with the positions as bit-vectors.

  lemma LastBitV(m: bv16, k: bv16)
    requires k < 16 && m != 0 && m & ((1 << k) - 1) == 0 && (m >> k) & 1 != 1
    ensures k < 15
  {}

  lemma DoubledV(m: bv16, p: bv16)
    requires p != 0 && p & (p - 1) == 0 && m & (p - 1) == 0 && m & p == 0
    ensures m & ((p << 1) - 1) == 0
  {}

  lemma NoNewBitV(m: bv16, k: bv16)
    requires k < 16 && (WithoutLowest(m) >> k) & 1 == 1
    ensures (m >> k) & 1 == 1
  {}

  lemma OwnBitV(m: bv16, c: bv16)
    requires c < 16 && (m >> c) & 1 == 1 && m & ((1 << c) - 1) == 0
    ensures (WithoutLowest(m) >> c) & 1 == 0
  {}

  lemma HighBitV(m: bv16, c: bv16, k: bv16)
    requires c < k < 16 && (m >> c) & 1 == 1 && m & ((1 << c) - 1) == 0
    ensures (WithoutLowest(m) >> k) & 1 == (m >> k) & 1
  {}

  lemma LowBitV(m: bv16, c: bv16, k: bv16)
    requires k < c < 16 && m & ((1 << c) - 1) == 0
    ensures (m >> k) & 1 == 0
  {}

  lemma SetBitV(m: bv16, n: bv16, k: bv16)
    requires n < 16 && k < 16
    ensures ((m | (1 << n)) >> k) & 1 == 1 <==> (m >> k) & 1 == 1 || k == n
  {}

  lemma NoBit(k: nat)
    requires k < 16
    ensures !Bit(0, k)
  {
    SetBitV(0, 0, k as bv16);
  }

  /** What is left to look at in a block: the mask shows CRs only, and all that can start a blank line. */
  predicate Shows(mask: bv16, s: string, i: nat)
    requires i + 16 <= |s|
  {
    && (forall k :: 0 <= k < 16 && Bit(mask, k) ==> s[i..i + 16][k] == '\r')
    && (forall j :: i <= j < i + 16 && TermAt(s, j) ==> Bit(mask, j - i))
  }

  lemma ShowsAll(s: string, i: nat)
    requires i + 16 <= |s|
    ensures Shows(CrMask(s[i..i + 16]), s, i)
  {
    hide Bit, CrMask;
    var chunk := s[i..i + 16];
    forall k | 0 <= k < 16 ensures Bit(CrMask(chunk), k) <==> chunk[k] == '\r' {
      CrMaskBits(chunk, k);
    }
    assert forall j :: i <= j < i + 16 ==> s[j] == chunk[j - i];
  }

  /** The lowest set bit is at the first CR left; nothing starts in front of it. */
  lemma ShowsLowest(mask: bv16, s: string, i: nat)
    requires mask != 0 && i + 16 <= |s| && Shows(mask, s, i)
    ensures s[i + Ctz(mask)] == '\r' && forall j :: i <= j < i + Ctz(mask) ==> !TermAt(s, j)
    ensures !TermAt(s, i + Ctz(mask)) ==> Shows(WithoutLowest(mask), s, i)
  {
    ClearLowest(mask);
    hide Bit, Ctz, TermAt, WithoutLowest;
    var c, rest := Ctz(mask), WithoutLowest(mask);
    assert s[i..i + 16][c] == s[i + c];
    if !TermAt(s, i + c) {
      forall k | 0 <= k < 16 && Bit(rest, k) ensures s[i..i + 16][k] == '\r' {
        assert Bit(mask, k);
      }
      forall j | i <= j < i + 16 && TermAt(s, j) ensures Bit(rest, j - i) {
        assert Bit(mask, j - i) && j - i != c;
      }
    }
  }

  lemma ShowsNothing(s: string, i: nat)
    requires i + 16 <= |s| && Shows(0, s, i)
    ensures forall j :: i <= j < i + 16 ==> !TermAt(s, j)
  {
    hide Bit, TermAt;
    forall j | i <= j < i + 16 ensures !TermAt(s, j) {
      NoBit(j - i);
    }
  }

  /** One 16-byte block: the first CR LF CR LF that starts in it, if any, plus 4; otherwise 0. */
  method ScanBlock(data: array<char>, len: nat, i: nat, ghost s: string) returns (end: nat)
    requires i + 19 < len <= data.Length && s == data[..len]
    ensures end == 0 ==> forall j :: i <= j < i + 16 ==> !TermAt(s, j)
    ensures end > 0 ==> i + 4 <= end && TermAt(s, end - 4)
    ensures end > 0 ==> forall j :: i <= j < end - 4 ==> !TermAt(s, j)
  {
    hide Bit, CrMask, Ctz, Shows, WithoutLowest;
    ShowsAll(s, i);
    var chunk := data[i..i + 16];
    assert |chunk| == 16 && forall k :: 0 <= k < 16 ==> chunk[k] == data[i + k] == s[i + k];
    assert chunk == s[i..i + 16];
    var mask := CrMask(chunk);
    while mask != 0
      invariant Shows(mask, s, i)
      decreases mask
    {
      var pos := i + Ctz(mask);
      ShowsLowest(mask, s, i);
      ClearLowest(mask);
      if pos + 3 < len && data[pos + 1] == '\n' && data[pos + 2] == '\r' && data[pos + 3] == '\n' {
        return pos + 4;
      }
      mask := WithoutLowest(mask);
    }
    ShowsNothing(s, i);
    return 0;
  }

  /**
   Scans `data[..len]` for the first CR LF CR LF at or after `max(0, scanStart - 3)` and returns the
   position past it, or 0.
   */
  method FindHeaderEnd(data: array<char>, len: nat, scanStart: nat) returns (end: nat)
    requires len <= data.Length
    ensures var from := if scanStart > 3 then scanStart - 3 else 0;
            if from <= len && FindTerm(data[..len], from) < len
            then end == FindTerm(data[..len], from) + 4
            else end == 0
  {
    ghost var s := data[..len];
    if len < 4 {
      return 0;
    }
    var from := if scanStart > 3 then scanStart - 3 else 0;
    var i := from;
    while i + 19 < len
      invariant from <= i
      invariant forall j :: from <= j < i ==> !TermAt(s, j)
    {
      end := ScanBlock(data, len, i, s);
      if end > 0 {
        return;
      }
      i := i + 16;
    }
    while i + 3 < len
      invariant from <= i
      invariant forall j :: from <= j < i ==> !TermAt(s, j)
    {
      if data[i] == '\r' && data[i + 1] == '\n' && data[i + 2] == '\r' && data[i + 3] == '\n' {
        assert TermAt(s, i);
        return i + 4;
      }
      i := i + 1;
    }
    return 0;
  }
}
