/** Numbers as text: `fast_itoa`, `std::from_chars` and the `%zx` of `snprintf`. */
module Numerals {
  import opened Prelude

  const INT_MIN: int := -0x8000_0000
  const INT_MAX: int := 0x7fff_ffff

  /** A 32-bit signed `int`. */
  type Int32 = v: int | INT_MIN <= v <= INT_MAX

  function DigitChar(d: nat): char
    requires d < 16
  {
    if d < 10 then '0' + d as char else 'a' + (d - 10) as char
  }

  /** The value of a digit, upper or lower case, or -1 (`hex_val`). */
  function HexVal(c: char): (v: int)
    ensures -1 <= v < 16
  {
    if '0' <= c <= '9' then c as int - '0' as int
    else if 'A' <= c <= 'F' then c as int - 'A' as int + 10
    else if 'a' <= c <= 'f' then c as int - 'a' as int + 10
    else -1
  }

  predicate IsDigit(c: char, base: nat) {
    0 <= HexVal(c) < base
  }

  predicate IsBase(base: nat) {
    base == 10 || base == 16
  }

  /** The numeral of `n`: lower-case digits, most significant first, no leading zeros. */
  function Digits(n: nat, base: nat): (s: string)
    requires IsBase(base)
    ensures s != "" && forall i :: 0 <= i < |s| ==> IsDigit(s[i], base)
  {
    if n < base then [DigitChar(n)] else Digits(n / base, base) + [DigitChar(n % base)]
  }

  /** The number a digit string denotes. */
  function Value(s: string, base: nat): nat
    requires IsBase(base) && forall i :: 0 <= i < |s| ==> IsDigit(s[i], base)
  {
    if s == "" then 0
    else
      assert IsDigit(s[|s| - 1], base);
      base * Value(s[..|s| - 1], base) + HexVal(s[|s| - 1])
  }

  lemma {:induction false} DigitsValue(n: nat, base: nat)
    requires IsBase(base)
    ensures Value(Digits(n, base), base) == n
  {
    var s := Digits(n, base);
    if n >= base {
      DigitsValue(n / base, base);
      assert s[..|s| - 1] == Digits(n / base, base);
    }
  }

  function Power(base: nat, k: nat): (p: nat)
    requires IsBase(base)
    ensures p > 0
  {
    if k == 0 then 1 else base * Power(base, k - 1)
  }

  /** The numeral is as short as possible: `k` digits are enough exactly for numbers below `base^k`. */
  lemma {:induction false} DigitsLength(n: nat, base: nat, k: nat)
    requires IsBase(base) && k > 0
    ensures |Digits(n, base)| <= k <==> n < Power(base, k)
  {
    if k == 1 {
      assert Power(base, 1) == base * Power(base, 0) == base;
    } else if n >= base {
      DigitsLength(n / base, base, k - 1);
    } else {
      assert Power(base, k - 1) >= 1;
    }
  }

  lemma QuotientPositive(n: nat, base: nat)
    requires IsBase(base) && n >= base
    ensures 0 < n / base < n
  {
    if base == 10 {
      assert 0 < n / 10 < n;
    } else {
      assert 0 < n / 16 < n;
    }
  }

  lemma FirstDigit(n: nat, base: nat)
    requires IsBase(base) && n >= base
    ensures Digits(n, base)[0] == Digits(n / base, base)[0]
  {
    hide IsDigit, DigitChar;
    var q, d := n / base, n % base;
    assert Digits(n, base) == Digits(q, base) + [DigitChar(d)];
  }

  lemma {:induction false} NoLeadingZero(n: nat, base: nat)
    requires IsBase(base) && n > 0
    ensures Digits(n, base)[0] != '0'
  {
    if n >= base {
      QuotientPositive(n, base);
      FirstDigit(n, base);
      NoLeadingZero(n / base, base);
    }
  }

  lemma TwentyDigits()
    ensures U64 <= Power(10, 20)
  {
    assert Power(10, 4) == 10000;
    assert Power(10, 8) == 10000_0000;
    assert Power(10, 12) == 10000_0000_0000;
    assert Power(10, 16) == 10000_0000_0000_0000;
  }

  /** Stack-based conversion of a 64-bit number, digits written backwards into 21 bytes. */
  class FastItoa {
    const buf: array<char>
    var len: nat

    constructor ()
      ensures fresh(buf) && buf.Length == 21 && len == 0
    {
      buf := new char[21];
      len := 0;
    }

    /** Writes the numeral of `val` and returns where it starts; it ends with a NUL at position 20. */
    method Format(val: nat) returns (p: nat)
      requires buf.Length == 21 && val < U64
      modifies buf, this`len
      ensures p + len == 20 && buf[20] == '\0'
      ensures buf[p..p + len] == Digits(val, 10)
    {
      TwentyDigits();
      p := 20;
      buf[p] := '\0';
      if val == 0 {
        p := p - 1;
        buf[p] := '0';
      } else {
        var v := val;
        while v > 0
          invariant p <= 20 && buf[20] == '\0' && v < Power(10, p)
          invariant Digits(val, 10) == (if v > 0 then Digits(v, 10) else "") + buf[p..20]
        {
          ghost var tail := buf[p..20];
          p := p - 1;
          buf[p] := '0' + (v % 10) as char;
          assert buf[p..20] == [DigitChar(v % 10)] + tail;
          v := v / 10;
        }
      }
      len := 20 - p;
    }
  }

  /** How many leading characters are decimal digits. */
  function DigitRun(s: string): (k: nat)
    ensures k <= |s| && forall i :: 0 <= i < k ==> IsDigit(s[i], 10)
    ensures k < |s| ==> !IsDigit(s[k], 10)
  {
    if s == "" || !IsDigit(s[0], 10) then 0 else 1 + DigitRun(s[1..])
  }

  /**
   `std::from_chars` into a `size_t`: the leading digits; an error when there are none or the number does
   not fit in 64 bits. Whatever follows the digits is ignored.
   */
  function ParseU64(s: string): (r: Option<nat>)
  {
    var k := DigitRun(s);
    if k == 0 then None
    else
      var v := Value(s[..k], 10);
      if v >= U64 then None else Some(v)
  }

  /** `std::from_chars` into an `int` that must use up the whole string. */
  function ParseInt(s: string): (r: Option<Int32>)
  {
    var neg := s != "" && s[0] == '-';
    var ds := if neg then s[1..] else s;
    if ds == "" || DigitRun(ds) < |ds| then None
    else
      var n: int := Value(ds, 10);
      var v := if neg then -n else n;
      if INT_MIN <= v <= INT_MAX then Some(v) else None
  }

  /** The decimal form of an `int`. */
  function IntText(v: Int32): string {
    if v < 0 then "-" + Digits(-(v as int), 10) else Digits(v, 10)
  }

  lemma RunOfDigits(s: string, t: string)
    requires forall i :: 0 <= i < |s| ==> IsDigit(s[i], 10)
    requires t != "" ==> !IsDigit(t[0], 10)
    ensures DigitRun(s + t) == |s|
  {
    assert t != "" ==> (s + t)[|s|] == t[0];
  }

  /** Reading back a printed number, whatever non-digit follows it. */
  lemma ParseU64Digits(n: nat, t: string)
    requires n < U64 && (t != "" ==> !IsDigit(t[0], 10))
    ensures ParseU64(Digits(n, 10) + t) == Some(n)
  {
    RunOfDigits(Digits(n, 10), t);
    assert (Digits(n, 10) + t)[..|Digits(n, 10)|] == Digits(n, 10);
    DigitsValue(n, 10);
  }

  lemma ParseDigits(n: nat)
    ensures var d := Digits(n, 10);
            DigitRun(d) == |d| && Value(d, 10) == n && d[0] != '-' && '/' !in d
  {
    var d := Digits(n, 10);
    RunOfDigits(d, "");
    assert d + "" == d;
    DigitsValue(n, 10);
    assert IsDigit(d[0], 10);
    assert forall i :: 0 <= i < |d| ==> IsDigit(d[i], 10);
  }

  lemma ParseIntText(v: Int32)
    ensures ParseInt(IntText(v)) == Some(v)
    ensures IntText(v) != "" && '/' !in IntText(v)
  {
    hide Digits, DigitRun, Value, ParseInt;
    var ds := Digits(Abs(v), 10);
    ParseDigits(Abs(v));
    assert ZeroPadded(0, Abs(v)) == ds;
    assert IntText(v) == if v < 0 then "-" + ds else ds;
    NumeralIsParsed(IntText(v), v);
  }

  // Which texts are numbers

  function Zeros(k: nat): string {
    seq(k, _ => '0')
  }

  lemma TenDigits(c: char)
    ensures IsDigit(c, 10) <==> '0' <= c <= '9'
  {}

  /** The numeral of `n` with `k` zeros in front of it. */
  function ZeroPadded(k: nat, n: nat): string {
    Zeros(k) + Digits(n, 10)
  }

  function Abs(v: int): nat {
    if v < 0 then -v else v
  }

  /** A decimal numeral, perhaps with a minus and with zeros in front, and nothing else. */
  ghost predicate IntNumeral(s: string, v: int) {
    exists k: nat :: (v >= 0 && s == ZeroPadded(k, Abs(v))) || (v <= 0 && s == "-" + ZeroPadded(k, Abs(v)))
  }

  lemma {:induction false} ZerosInFront(k: nat, n: nat)
    ensures var s := Zeros(k) + Digits(n, 10);
            s != "" && DigitRun(s) == |s| && Value(s, 10) == n && s[0] != '-'
    decreases k
  {
    hide Digits, DigitRun, Value;
    if k == 0 {
      ParseDigits(n);
      assert Zeros(0) + Digits(n, 10) == Digits(n, 10);
    } else {
      ZerosInFront(k - 1, n);
      MoreZeros(k, Digits(n, 10));
      ZeroInFront(Zeros(k - 1) + Digits(n, 10));
    }
  }

  lemma MoreZeros(k: nat, t: string)
    requires k > 0
    ensures Zeros(k) + t == "0" + (Zeros(k - 1) + t)
  {
    assert Zeros(k) == "0" + Zeros(k - 1);
    Joined("0", Zeros(k - 1), t);
  }

  lemma {:induction false} ZeroInFront(t: string)
    requires t != "" && DigitRun(t) == |t|
    ensures DigitRun("0" + t) == |t| + 1 && Value("0" + t, 10) == Value(t, 10)
  {
    var s := "0" + t;
    assert s[1..] == t && IsDigit('0', 10);
    var front := t[..|t| - 1];
    assert s[..|s| - 1] == "0" + front;
    if front == "" {
      assert s[..1] == "0" && "0"[..0] == "";
    } else {
      RunOfDigits(front, "");
      assert front + "" == front;
      ZeroInFront(front);
    }
  }

  /** Every string of digits is zeros and the numeral of its value. */
  lemma {:induction false} DigitString(s: string) returns (k: nat)
    requires s != "" && DigitRun(s) == |s|
    ensures s == Zeros(k) + Digits(Value(s, 10), 10)
  {
    hide Digits, DigitRun, DigitChar;
    var front, last := s[..|s| - 1], s[|s| - 1];
    assert IsDigit(last, 10) && s == front + [last];
    DigitOf(last);
    if front == "" {
      assert s[..0] == "";
      k := 0;
      assert Zeros(0) + [last] == [last];
    } else {
      RunOfDigits(front, "");
      assert front + "" == front;
      var j := DigitString(front);
      var m := Value(front, 10);
      if m == 0 {
        k := j + 1;
        DigitOf('0');
        assert Zeros(j) + "0" == Zeros(k);
      } else {
        k := j;
        OneMoreDigit(m, last);
        Joined(Zeros(k), Digits(m, 10), [last]);
      }
    }
  }

  lemma Joined(a: string, b: string, c: string)
    ensures a + (b + c) == (a + b) + c
  {}

  lemma DigitOf(c: char)
    requires IsDigit(c, 10)
    ensures Digits(HexVal(c), 10) == [c] && DigitChar(HexVal(c)) == c
  {}

  lemma OneMoreDigit(m: nat, c: char)
    requires m > 0 && IsDigit(c, 10)
    ensures Digits(10 * m + HexVal(c), 10) == Digits(m, 10) + [c]
  {
    DigitOf(c);
    assert (10 * m + HexVal(c)) / 10 == m && (10 * m + HexVal(c)) % 10 == HexVal(c);
  }

  /** The range of an `int`. */
  lemma IntRange(v: int)
    ensures INT_MIN <= v <= INT_MAX <==> -2147483648 <= v < 2147483648
  {}

  /** A text is read as an `int` exactly when it is a numeral and nothing else, and its value fits. */
  lemma ParseIntExactly(s: string, v: Int32)
    ensures ParseInt(s) == Some(v) <==> IntNumeral(s, v)
  {
    hide Digits, DigitRun, Value, IntNumeral;
    if ParseInt(s) == Some(v) {
      ParsedIsNumeral(s, v);
    }
    if IntNumeral(s, v) {
      NumeralIsParsed(s, v);
    }
  }

  lemma ParsedIsNumeral(s: string, v: Int32)
    requires ParseInt(s) == Some(v)
    ensures IntNumeral(s, v)
  {
    hide Digits, DigitRun, Value;
    var neg := s != "" && s[0] == '-';
    var ds := if neg then s[1..] else s;
    var k := DigitString(ds);
    assert ds == ZeroPadded(k, Abs(v));
    assert neg ==> s == "-" + ds;
  }

  lemma NumeralIsParsed(s: string, v: Int32)
    requires IntNumeral(s, v)
    ensures ParseInt(s) == Some(v)
  {
    hide Digits, DigitRun, Value;
    var k: nat :| (v >= 0 && s == ZeroPadded(k, Abs(v))) || (v <= 0 && s == "-" + ZeroPadded(k, Abs(v)));
    var ds := ZeroPadded(k, Abs(v));
    ZerosInFront(k, Abs(v));
    if s != ds {
      assert s[0] == '-' && s[1..] == ds;
    }
  }

  /** What `from_chars` reads into a `size_t`: a numeral below 2^64 at the front, and no digit behind it. */
  ghost predicate StartsWithNumeral(s: string, v: nat) {
    exists k: nat :: NumeralEnds(s, ZeroPadded(k, v))
  }

  /** `s` starts with `ds`, and no digit follows. */
  predicate NumeralEnds(s: string, ds: string) {
    |ds| <= |s| && s[..|ds|] == ds && (|ds| < |s| ==> !IsDigit(s[|ds|], 10))
  }

  lemma ParseU64Exactly(s: string, v: nat)
    ensures ParseU64(s) == Some(v) <==> v < U64 && StartsWithNumeral(s, v)
  {
    hide Digits, Value, IsDigit, ParseU64, StartsWithNumeral;
    if ParseU64(s) == Some(v) {
      ParsedStarts(s, v);
    }
    if v < U64 && StartsWithNumeral(s, v) {
      NumeralInFront(s, v);
    }
  }

  lemma ParsedStarts(s: string, v: nat)
    requires ParseU64(s) == Some(v)
    ensures v < U64 && StartsWithNumeral(s, v)
  {
    hide Digits, Value, IsDigit;
    var d := DigitRun(s);
    FrontRun(s, d);
    var k := DigitString(s[..d]);
    assert ZeroPadded(k, v) == s[..d];
    assert NumeralEnds(s, ZeroPadded(k, v));
  }

  lemma NumeralInFront(s: string, v: nat)
    requires v < U64 && StartsWithNumeral(s, v)
    ensures ParseU64(s) == Some(v)
  {
    hide Digits, IsDigit, DigitRun, Value;
    var k: nat :| NumeralEnds(s, ZeroPadded(k, v));
    var ds := ZeroPadded(k, v);
    ZerosInFront(k, v);
    assert s == ds + s[|ds|..];
    FrontOf(ds, s[|ds|..]);
    RunIsNumber(s, ds, v);
  }

  lemma RunIsNumber(s: string, ds: string, v: nat)
    requires v < U64 && ds != "" && |ds| <= |s| && s[..|ds|] == ds
    requires DigitRun(s) == |ds| == DigitRun(ds) && Value(ds, 10) == v
    ensures ParseU64(s) == Some(v)
  {
    hide DigitRun, Value, IsDigit;
  }

  lemma FrontRun(s: string, d: nat)
    requires d == DigitRun(s) && d > 0
    ensures DigitRun(s[..d]) == |s[..d]|
  {
    RunOfDigits(s[..d], "");
    assert s[..d] + "" == s[..d];
  }

  lemma FrontOf(ds: string, t: string)
    requires DigitRun(ds) == |ds| && (t != "" ==> !IsDigit(t[0], 10))
    ensures DigitRun(ds + t) == |ds| && (ds + t)[..|ds|] == ds
  {
    RunOfDigits(ds, t);
  }
}
