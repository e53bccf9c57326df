/** Base64 as in section 4 of RFC 4648, and the accept key of the WebSocket handshake. */
module Base64 {
  import opened Prelude
  import opened Text
  import opened Sha1

  /** The table of section 4: A-Z, a-z, 0-9, plus, slash. */
  function Symbol(k: nat): char
    requires k < 64
  {
    if k < 26 then 'A' + k as char
    else if k < 52 then 'a' + (k - 26) as char
    else if k < 62 then '0' + (k - 52) as char
    else if k == 62 then '+' else '/'
  }

  /** The value of a table character; 64 for anything else. */
  function Index(c: char): (k: nat)
    ensures k <= 64
  {
    if 'A' <= c <= 'Z' then c as int - 'A' as int
    else if 'a' <= c <= 'z' then c as int - 'a' as int + 26
    else if '0' <= c <= '9' then c as int - '0' as int + 52
    else if c == '+' then 62
    else if c == '/' then 63
    else 64
  }

  lemma SymbolIndex(k: nat)
    requires k < 64
    ensures Index(Symbol(k)) == k && Symbol(k) != '='
  {}

  /** The 24-bit group of up to three bytes, missing ones taken as zero. */
  function Group(a: nat, b: nat, c: nat): (n: nat)
    requires a < 256 && b < 256 && c < 256
    ensures n < 0x100_0000
  {
    a * 0x1_0000 + b * 0x100 + c
  }

  /** The four six-bit numbers of a group. */
  lemma Sextets(a: nat, b: nat, c: nat)
    requires a < 256 && b < 256 && c < 256
    ensures var n := Group(a, b, c);
            && n / 0x4_0000 % 64 == a / 4
            && n / 0x1000 % 64 == a % 4 * 16 + b / 16
            && n / 64 % 64 == b % 16 * 4 + c / 64
            && n % 64 == c % 64
  {
    var n := Group(a, b, c);
    DivMod(n, 0x4_0000, a / 4, a % 4 * 0x1_0000 + b * 0x100 + c);
    DivMod(n, 0x1000, 16 * a + b / 16, b % 16 * 0x100 + c);
    DivMod(16 * a + b / 16, 64, a / 4, a % 4 * 16 + b / 16);
    DivMod(n, 64, 0x400 * a + 4 * b + c / 64, c % 64);
    DivMod(0x400 * a + 4 * b + c / 64, 64, 16 * a + b / 16, b % 16 * 4 + c / 64);
  }

  lemma DivMod(n: nat, k: nat, q: nat, r: nat)
    requires n == k * q + r && r < k
    ensures n / k == q && n % k == r
  {
    var x := n / k;
    assert n == k * x + n % k;
    if x < q {
      Scaled(k, x + 1, q);
    } else if x > q {
      Scaled(k, q + 1, x);
    }
  }

  lemma Scaled(k: nat, x: nat, y: nat)
    requires x <= y
    ensures k * x <= k * y
  {}

  /** The four characters for up to three bytes. */
  function Quad(d: seq<byte>): (q: string)
    requires 0 < |d| <= 3
    ensures |q| == 4
  {
    var b := if |d| > 1 then d[1] else 0;
    var c := if |d| > 2 then d[2] else 0;
    [Symbol(d[0] / 4), Symbol(d[0] % 4 * 16 + b / 16),
     if |d| > 1 then Symbol(b % 16 * 4 + c / 64) else '=', if |d| > 2 then Symbol(c % 64) else '=']
  }

  function Encoded(d: seq<byte>): string {
    if d == [] then "" else if |d| <= 3 then Quad(d) else Quad(d[..3]) + Encoded(d[3..])
  }

  /** One round of `base64_encode`: the group at `i`, and the four characters appended for it. */
  method AppendQuad(data: seq<byte>, i: nat, out: string) returns (more: string)
    requires i < |data|
    ensures more == out + Quad(if |data| - i <= 3 then data[i..] else data[i..i + 3])
  {
    hide Symbol, Group;
    ghost var d := if |data| - i <= 3 then data[i..] else data[i..i + 3];
    var b: nat, c: nat := 0, 0;
    if i + 1 < |data| {
      b := data[i + 1];
    }
    if i + 2 < |data| {
      c := data[i + 2];
    }
    var n := Group(data[i], b, c);
    Sextets(data[i], b, c);
    more := out + [Symbol(n / 0x4_0000 % 64)];
    more := more + [Symbol(n / 0x1000 % 64)];
    more := more + [if i + 1 < |data| then Symbol(n / 64 % 64) else '='];
    more := more + [if i + 2 < |data| then Symbol(n % 64) else '='];
  }

  /** `base64_encode`: three bytes per round. */
  method Base64Encode(data: seq<byte>) returns (out: string)
    ensures out == Encoded(data)
  {
    hide Quad;
    out := "";
    var i := 0;
    assert data[0..] == data;
    while i < |data|
      invariant 0 <= i
      invariant Encoded(data) == out + if i < |data| then Encoded(data[i..]) else ""
    {
      ghost var was, rest := out, data[i..];
      out := AppendQuad(data, i, out);
      if |rest| > 3 {
        assert rest[..3] == data[i..i + 3] && rest[3..] == data[i + 3..];
        Regroup(was, Quad(rest[..3]), Encoded(rest[3..]));
      }
      i := i + 3;
    }
  }

  function Top(a: nat, b: nat): byte
    requires a < 64 && b < 64
  {
    a * 4 + b / 16
  }

  /** The bytes of four characters, or nothing when they are not a canonical quad. */
  function QuadBytes(q: string): Option<seq<byte>>
    requires |q| == 4
  {
    var a, b, c, d := Index(q[0]), Index(q[1]), Index(q[2]), Index(q[3]);
    if a == 64 || b == 64 then None
    else if q[2] == '=' && q[3] == '=' then
      if b % 16 == 0 then Some([Top(a, b)]) else None
    else if c == 64 then None
    else if q[3] == '=' then
      if c % 4 == 0 then Some([Top(a, b), b % 16 * 16 + c / 4]) else None
    else if d == 64 then None
    else Some([Top(a, b), b % 16 * 16 + c / 4, c % 4 * 64 + d])
  }

  /** Decoding: only the last quad may be padded. */
  function Decoded(s: string): Option<seq<byte>> {
    if s == "" then Some([])
    else if |s| < 4 then None
    else
      match QuadBytes(s[..4])
      case None => None
      case Some(d) =>
        if |d| < 3 then (if |s| == 4 then Some(d) else None)
        else
          match Decoded(s[4..])
          case None => None
          case Some(more) => Some(d + more)
  }

  /** Two neighbouring sextets give back the bits that were put into them. */
  lemma Recombine(a: byte, b: byte, c: byte)
    ensures var x, y := a % 4 * 16 + b / 16, b % 16 * 4 + c / 64;
            && x < 64 && y < 64 && x / 16 == a % 4 && x % 16 == b / 16 && y / 4 == b % 16 && y % 4 == c / 64
  {
    DivMod(a % 4 * 16 + b / 16, 16, a % 4, b / 16);
    DivMod(b % 16 * 4 + c / 64, 4, b % 16, c / 64);
  }

  lemma QuadOne(a: byte)
    ensures QuadBytes(Quad([a])) == Some([a])
  {
    hide Symbol, Index;
    Recombine(a, 0, 0);
    SymbolIndex(a / 4);
    SymbolIndex(a % 4 * 16);
  }

  lemma QuadTwo(a: byte, b: byte)
    ensures QuadBytes(Quad([a, b])) == Some([a, b])
  {
    hide Symbol, Index;
    Recombine(a, b, 0);
    SymbolIndex(a / 4);
    SymbolIndex(a % 4 * 16 + b / 16);
    SymbolIndex(b % 16 * 4);
  }

  lemma QuadThree(a: byte, b: byte, c: byte)
    ensures QuadBytes(Quad([a, b, c])) == Some([a, b, c])
  {
    hide Symbol, Index;
    Recombine(a, b, c);
    SymbolIndex(a / 4);
    SymbolIndex(a % 4 * 16 + b / 16);
    SymbolIndex(b % 16 * 4 + c / 64);
    SymbolIndex(c % 64);
  }

  lemma QuadRoundTrip(d: seq<byte>)
    requires 0 < |d| <= 3
    ensures QuadBytes(Quad(d)) == Some(d)
  {
    hide Quad, QuadBytes;
    if |d| == 1 {
      assert d == [d[0]];
      QuadOne(d[0]);
    } else if |d| == 2 {
      assert d == [d[0], d[1]];
      QuadTwo(d[0], d[1]);
    } else {
      assert d == [d[0], d[1], d[2]];
      QuadThree(d[0], d[1], d[2]);
    }
  }

  /** Decoding inverts encoding on every byte string. */
  lemma {:induction false} Base64RoundTrip(d: seq<byte>)
    ensures Decoded(Encoded(d)) == Some(d)
  {
    hide Quad, QuadBytes;
    if d != [] {
      var first := if |d| <= 3 then d else d[..3];
      QuadRoundTrip(first);
      if |d| <= 3 {
        assert Encoded(d)[..4] == Quad(d) && Encoded(d)[4..] == "";
        assert d + [] == d;
      } else {
        Base64RoundTrip(d[3..]);
        Halves(Quad(first), Encoded(d[3..]));
        assert first + d[3..] == d;
      }
    }
  }

  /** Four characters for every three bytes, the last group rounded up. */
  lemma {:induction false} EncodedLength(d: seq<byte>)
    ensures |Encoded(d)| == (|d| + 2) / 3 * 4
  {
    hide Quad;
    if |d| > 3 {
      EncodedLength(d[3..]);
    }
  }

  /** `ws_accept_key`: two updates, one digest, Base64; `magic` is the fixed 36-byte suffix. */
  method WsAcceptKey(key: seq<byte>, magic: seq<byte>) returns (accept: string)
    ensures accept == Encoded(Sha1Of(key + magic)) && |accept| == 28
    ensures Decoded(accept) == Some(Sha1Of(key + magic))
  {
    hide Encoded, Decoded, Sha1Of, Absorbed, Fold;
    var h := new Hasher();
    h.Update(key);
    h.Update(magic);
    assert h.msg == key + magic;
    var digest := h.Finalize();
    EncodedLength(digest);
    Base64RoundTrip(digest);
    accept := Base64Encode(digest);
  }
}
