/** The streaming SHA-1 of the WebSocket handshake, against the one-shot definition of RFC 3174. */
module Sha1 {
  import opened Prelude
  import opened Bytes
  import opened Text

  /** The five 32-bit words of the hash state. */
  datatype Hash = Hash(a: bv32, b: bv32, c: bv32, d: bv32, e: bv32)

  const H0 := Hash(0x67452301, 0xEFCDAB89, 0x98BADCFE, 0x10325476, 0xC3D2E1F0)

  // The definition: sections 4, 5 and 6.1 of RFC 3174

  function Rol(v: bv32, bits: nat): bv32
    requires 0 < bits < 32
  {
    (v << bits) | (v >> (32 - bits))
  }

  function Word(b0: byte, b1: byte, b2: byte, b3: byte): bv32 {
    (b0 as bv32 << 24) | (b1 as bv32 << 16) | (b2 as bv32 << 8) | b3 as bv32
  }

  function Mix(x: bv32, y: bv32, z: bv32, v: bv32): bv32 {
    Rol(x ^ y ^ z ^ v, 1)
  }

  function Choice(b: bv32, c: bv32, d: bv32): bv32 {
    (b & c) | (!b & d)
  }

  function Parity(b: bv32, c: bv32, d: bv32): bv32 {
    b ^ c ^ d
  }

  function Majority(b: bv32, c: bv32, d: bv32): bv32 {
    (b & c) | (b & d) | (c & d)
  }

  /** Addition modulo 2^32. */
  function Sum(u: bv32, v: bv32, w: bv32, x: bv32, y: bv32): bv32 {
    u + v + w + x + y
  }

  /** The message schedule W(t). */
  function W(block: seq<byte>, t: nat): bv32
    requires |block| == 64 && t < 80
  {
    if t < 16 then Word(block[4 * t], block[4 * t + 1], block[4 * t + 2], block[4 * t + 3])
    else Mix(W(block, t - 3), W(block, t - 8), W(block, t - 14), W(block, t - 16))
  }

  function F(t: nat, b: bv32, c: bv32, d: bv32): bv32 {
    if t < 20 then Choice(b, c, d)
    else if t < 40 then Parity(b, c, d)
    else if t < 60 then Majority(b, c, d)
    else Parity(b, c, d)
  }

  function K(t: nat): bv32 {
    if t < 20 then 0x5A827999
    else if t < 40 then 0x6ED9EBA1
    else if t < 60 then 0x8F1BBCDC
    else 0xCA62C1D6
  }

  /** One of the 80 steps, with schedule word `w`. */
  function Step(p: Hash, t: nat, w: bv32): Hash {
    Hash(Sum(Rol(p.a, 5), F(t, p.b, p.c, p.d), p.e, K(t), w), p.a, Rol(p.b, 30), p.c, p.d)
  }

  /** The working words after `t` steps on one block. */
  function Rounds(h: Hash, block: seq<byte>, t: nat): Hash
    requires |block| == 64 && t <= 80
  {
    if t == 0 then h else Step(Rounds(h, block, t - 1), t - 1, W(block, t - 1))
  }

  function AddWords(h: Hash, r: Hash): Hash {
    Hash(h.a + r.a, h.b + r.b, h.c + r.c, h.d + r.d, h.e + r.e)
  }

  function Compress(h: Hash, block: seq<byte>): Hash
    requires |block| == 64
  {
    AddWords(h, Rounds(h, block, 80))
  }

  function Fold(h: Hash, s: seq<byte>): Hash
    requires |s| % 64 == 0
    decreases |s|
  {
    if s == [] then h else Fold(Compress(h, s[..64]), s[64..])
  }

  function Zeros(n: nat): seq<byte> {
    seq(n, _ => 0)
  }

  /** How many zero bytes bring the length to 56 modulo 64 after the 0x80 byte. */
  function PadLength(n: nat): (k: nat)
    ensures k < 64 && (n + 1 + k) % 64 == 56 && (n + 1 + k + 8) % 64 == 0
  {
    (119 - n % 64) % 64
  }

  /** Message padding: 0x80, zeros, and the length in bits modulo 2^64. */
  function Padded(m: seq<byte>): (p: seq<byte>)
    ensures |p| % 64 == 0
  {
    var k := PadLength(|m|);
    var p := m + [0x80] + Zeros(k) + BigEndian(8 * |m| % U64, 8);
    assert |p| == |m| + 1 + k + 8;
    p
  }

  function WordBytes(v: bv32): (s: seq<byte>)
    ensures |s| == 4
  {
    [((v >> 24) & 0xFF) as int, ((v >> 16) & 0xFF) as int, ((v >> 8) & 0xFF) as int, (v & 0xFF) as int]
  }

  function Digest(h: Hash): (s: seq<byte>)
    ensures |s| == 20
  {
    WordBytes(h.a) + WordBytes(h.b) + WordBytes(h.c) + WordBytes(h.d) + WordBytes(h.e)
  }

  /** One-shot SHA-1. */
  function Sha1Of(m: seq<byte>): (s: seq<byte>)
    ensures |s| == 20
  {
    Digest(Fold(H0, Padded(m)))
  }

  lemma {:induction false} FoldConcat(h: Hash, s: seq<byte>, t: seq<byte>)
    requires |s| % 64 == 0 && |t| % 64 == 0
    ensures Fold(h, s + t) == Fold(Fold(h, s), t)
    decreases |s|
  {
    hide Compress;
    if s == [] {
      assert s + t == t;
    } else {
      assert (s + t)[..64] == s[..64] && (s + t)[64..] == s[64..] + t;
      FoldConcat(Compress(h, s[..64]), s[64..], t);
    }
  }

  /** What `update` keeps true: the complete blocks are folded, the rest is buffered. */
  ghost predicate Absorbed(state: Hash, tail: seq<byte>, msg: seq<byte>) {
    var n := |msg| - |msg| % 64;
    tail == msg[n..] && state == Fold(H0, msg[..n])
  }

  lemma AbsorbByte(state: Hash, tail: seq<byte>, msg: seq<byte>, b: byte)
    requires Absorbed(state, tail, msg)
    ensures |tail| == |msg| % 64
    ensures |tail| < 63 ==> Absorbed(state, tail + [b], msg + [b])
    ensures |tail| == 63 ==> Absorbed(Compress(state, tail + [b]), [], msg + [b])
  {
    hide Compress, Fold;
    var n := |msg| - |msg| % 64;
    var more := msg + [b];
    if |tail| < 63 {
      assert |more| - |more| % 64 == n;
      assert more[..n] == msg[..n] && more[n..] == tail + [b];
    } else {
      var block := tail + [b];
      assert |more| % 64 == 0 && more[..|more|] == more == msg[..n] + block;
      FoldConcat(H0, msg[..n], block);
      OneBlock(state, block);
    }
  }

  lemma OneBlock(h: Hash, block: seq<byte>)
    requires |block| == 64
    ensures Fold(h, block) == Compress(h, block)
  {
    hide Compress;
    assert block[..64] == block && block[64..] == [];
  }

  /** The first two loops of `transform`. */
  method MakeSchedule(block: seq<byte>) returns (w: array<bv32>)
    requires |block| == 64
    ensures fresh(w) && w.Length == 80 && forall j :: 0 <= j < 80 ==> w[j] == W(block, j)
  {
    hide Word, Mix;
    w := new bv32[80];
    var i := 0;
    while i < 16
      invariant 0 <= i <= 16
      invariant forall j :: 0 <= j < i ==> w[j] == W(block, j)
    {
      var idx := i * 4;
      w[i] := Word(block[idx], block[idx + 1], block[idx + 2], block[idx + 3]);
      i := i + 1;
    }
    while i < 80
      invariant 16 <= i <= 80
      invariant forall j :: 0 <= j < i ==> w[j] == W(block, j)
    {
      w[i] := Mix(w[i - 3], w[i - 8], w[i - 14], w[i - 16]);
      i := i + 1;
    }
  }

  /** The 80 steps of `transform`. */
  method RunRounds(w: array<bv32>, h: Hash, block: seq<byte>) returns (r: Hash)
    requires |block| == 64 && w.Length == 80 && forall j :: 0 <= j < 80 ==> w[j] == W(block, j)
    ensures r == Rounds(h, block, 80)
  {
    hide W, Rol, Choice, Parity, Majority, Sum;
    var a, b, c, d, e := h.a, h.b, h.c, h.d, h.e;
    var i := 0;
    while i < 80
      invariant 0 <= i <= 80
      invariant Hash(a, b, c, d, e) == Rounds(h, block, i)
    {
      var f: bv32, k: bv32;
      if i < 20 {
        f := Choice(b, c, d);
        k := 0x5A827999;
      } else if i < 40 {
        f := Parity(b, c, d);
        k := 0x6ED9EBA1;
      } else if i < 60 {
        f := Majority(b, c, d);
        k := 0x8F1BBCDC;
      } else {
        f := Parity(b, c, d);
        k := 0xCA62C1D6;
      }
      var t := Sum(Rol(a, 5), f, e, k, w[i]);
      e := d;
      d := c;
      c := Rol(b, 30);
      b := a;
      a := t;
      i := i + 1;
    }
    r := Hash(a, b, c, d, e);
  }

  /** A 64-bit counter that wraps still counts modulo 64. */
  lemma WrapsAt64(n: nat)
    ensures (n % U64) % 64 == n % 64
  {
    var q, r := n / U64, n % U64;
    assert n == 64 * (q * 0x400_0000_0000_0000 + r / 64) + r % 64;
    Remainder(n, q * 0x400_0000_0000_0000 + r / 64, r % 64);
  }

  lemma WrapsSum(n: nat, k: nat)
    ensures (n % U64 + k) % U64 == (n + k) % U64
  {}

  lemma NextRemainder(n: nat)
    ensures (n + 1) % 64 == if n % 64 == 63 then 0 else n % 64 + 1
  {}

  lemma Remainder(n: nat, k: nat, r: nat)
    requires n == 64 * k + r && r < 64
    ensures n % 64 == r
  {}

  /** The streaming hash. */
  class Hasher {
    var state: Hash
    var count: nat
    const buffer: array<byte>
    ghost var msg: seq<byte>

    /** `msg` is all that was fed so far. */
    ghost predicate Valid()
      reads this, buffer
    {
      && buffer.Length == 64
      && count == |msg| % U64
      && Absorbed(state, buffer[..|msg| % 64], msg)
    }

    constructor ()
      ensures Valid() && fresh(buffer) && msg == []
    {
      buffer := new byte[64](_ => 0);
      state, count, msg := H0, 0, [];
    }

    method Transform(block: seq<byte>)
      requires |block| == 64
      modifies this`state
      ensures state == Compress(old(state), block)
    {
      hide W, Rounds, AddWords;
      var w := MakeSchedule(block);
      var r := RunRounds(w, state, block);
      state := AddWords(state, r);
    }

    method Update(data: seq<byte>)
      requires Valid()
      modifies this, buffer
      ensures Valid() && msg == old(msg) + data
    {
      hide Compress, Absorbed, Fold;
      ghost var start := msg;
      assert start + data[..0] == start;
      WrapsAt64(|msg|);
      var idx := count % 64;
      WrapsSum(|start|, |data|);
      count := (count + |data|) % U64;
      var i := 0;
      while i < |data|
        invariant 0 <= i <= |data| && msg == start + data[..i]
        invariant buffer.Length == 64 && idx == |msg| % 64 && count == (|start| + |data|) % U64
        invariant Absorbed(state, buffer[..idx], msg)
      {
        ghost var tail := buffer[..idx];
        AbsorbByte(state, tail, msg, data[i]);
        NextRemainder(|msg|);
        assert data[..i + 1] == data[..i] + [data[i]];
        Regroup(start, data[..i], [data[i]]);
        buffer[idx] := data[i];
        msg := msg + [data[i]];
        idx := idx + 1;
        assert buffer[..idx] == tail + [data[i]];
        if idx == 64 {
          assert buffer[..64] == buffer[..];
          Transform(buffer[..]);
          idx := 0;
        }
        i := i + 1;
      }
      assert data[..|data|] == data;
    }

    /** Pads, and returns the digest of everything that was fed. */
    method Finalize() returns (digest: seq<byte>)
      requires Valid()
      modifies this, buffer
      ensures digest == Sha1Of(old(msg))
    {
      hide Absorbed, BigEndian, Fold, Compress, Zeros, PadLength, Digest;
      ghost var m := msg;
      var bits := count * 8 % U64;
      BitsWrap(|m|);
      Update([0x80]);
      ghost var zeros := 0;
      NoZeros(m + [0x80]);
      PadTest(|m|, 0);
      while count % 64 != 56
        invariant Valid() && zeros <= PadLength(|m|) && |msg| == |m| + 1 + zeros
        invariant count % 64 == 56 <==> zeros == PadLength(|m|)
        invariant msg == m + [0x80] + Zeros(zeros)
        decreases PadLength(|m|) - zeros
      {
        OneMoreZero(zeros);
        Regroup(m + [0x80], Zeros(zeros), [0]);
        PadTest(|m|, zeros + 1);
        Update([0]);
        zeros := zeros + 1;
      }
      var lenBe := LengthBytes(bits);
      Update(lenBe);
      assert msg == Padded(m);
      AllFolded(state, buffer[..|msg| % 64], msg);
      digest := Digest(state);
    }
  }

  /** The loop that peels the bit count off byte by byte. */
  method LengthBytes(bits: nat) returns (lenBe: seq<byte>)
    ensures lenBe == BigEndian(bits, 8)
  {
    var rest := bits;
    lenBe := [];
    var i := 7;
    while i >= 0
      invariant -1 <= i <= 7
      invariant BigEndian(bits, 8) == BigEndian(rest, i + 1) + lenBe
    {
      Regroup(BigEndian(rest / 256, i), [rest % 256], lenBe);
      lenBe := [rest % 256] + lenBe;
      rest := rest / 256;
      i := i - 1;
    }
  }

  lemma BitsWrap(n: nat)
    ensures n % U64 * 8 % U64 == 8 * n % U64
  {
    var q, r := n / U64, n % U64;
    assert 8 * n == 8 * r + (8 * q) * U64;
  }

  lemma NoZeros(s: seq<byte>)
    ensures s + Zeros(0) == s && |s + Zeros(0)| == |s|
  {}

  lemma OneMoreZero(n: nat)
    ensures Zeros(n + 1) == Zeros(n) + [0] && |Zeros(n)| == n
  {}

  /** The test of the padding loop succeeds at the right number of zero bytes and not before. */
  lemma PadTest(n: nat, k: nat)
    requires k <= PadLength(n)
    ensures (n + 1 + k) % U64 % 64 == 56 <==> k == PadLength(n)
  {
    WrapsAt64(n + 1 + k);
    var m := n % 64 + 1 + k;
    Remainder(n + 1 + k, n / 64 + m / 64, m % 64);
  }

  lemma AllFolded(state: Hash, tail: seq<byte>, msg: seq<byte>)
    requires Absorbed(state, tail, msg) && |msg| % 64 == 0
    ensures state == Fold(H0, msg)
  {
    assert msg[..|msg|] == msg;
  }

  function Joined(pieces: seq<seq<byte>>): seq<byte> {
    if pieces == [] then [] else pieces[0] + Joined(pieces[1..])
  }

  /** However a message is cut into `update` calls, the digest is that of the whole message. */
  method HashInPieces(pieces: seq<seq<byte>>) returns (digest: seq<byte>)
    ensures digest == Sha1Of(Joined(pieces))
  {
    hide Sha1Of;
    var h := new Hasher();
    var i := 0;
    while i < |pieces|
      invariant 0 <= i <= |pieces| && h.Valid() && fresh(h) && fresh(h.buffer)
      invariant Joined(pieces) == h.msg + Joined(pieces[i..])
    {
      Regroup(h.msg, pieces[i], Joined(pieces[i + 1..]));
      h.Update(pieces[i]);
      i := i + 1;
    }
    assert h.msg + [] == h.msg;
    digest := h.Finalize();
  }

  /** The length field holds the number of bits exactly for messages of less than 2^61 bytes. */
  lemma LengthFieldExact(n: nat)
    ensures FromBigEndian(BigEndian(8 * n % U64, 8)) == 8 * n <==> n < 0x2000_0000_0000_0000
  {
    Powers();
    BigEndianRoundTrip(8 * n % U64, 8);
  }

  lemma PaddedEnd(m: seq<byte>)
    ensures var p := Padded(m);
            && |p| >= |m| + 8 && p[..|m|] == m
            && p[|p| - 8..] == BigEndian(8 * |m| % U64, 8)
  {
    hide BigEndian;
    Halves(m, [0x80] + Zeros(PadLength(|m|)) + BigEndian(8 * |m| % U64, 8));
    assert Padded(m) == m + ([0x80] + Zeros(PadLength(|m|)) + BigEndian(8 * |m| % U64, 8));
  }

  /** Padding loses nothing: two messages with the same padded form are the same. */
  lemma PaddingIsInjective(a: seq<byte>, b: seq<byte>)
    requires |a| < 0x2000_0000_0000_0000 && |b| < 0x2000_0000_0000_0000
    requires Padded(a) == Padded(b)
    ensures a == b
  {
    hide Padded, BigEndian;
    PaddedEnd(a);
    PaddedEnd(b);
    LengthFieldExact(|a|);
    LengthFieldExact(|b|);
  }
}
