/** Frames as they are on the wire, byte by byte (section 5 of RFC 6455). */
module FrameLaws {
  import opened Prelude
  import opened Text
  import opened Bytes
  import opened Frames
  import opened WebSocket

  // Masking

  lemma MaskAt(key: Key, p: seq<byte>, i: nat)
    requires i < |p|
    ensures Masked(key, p)[i] == Xor(p[i], key[i % 4])
  {
    hide Xor;
  }

  lemma FourBack(i: nat)
    requires i >= 4
    ensures i % 4 == (i - 4) % 4
  {}

  /** The key goes round: four bytes at a time, each byte with the key byte at its own place. */
  lemma MaskGoesRound(key: Key, a: seq<byte>, p: seq<byte>)
    requires |a| == 4
    ensures Masked(key, a + p) == Masked(key, a) + Masked(key, p)
    ensures forall i :: 0 <= i < 4 ==> Masked(key, a)[i] == Xor(a[i], key[i])
  {
    hide Xor, Masked;
    var m, x, y := Masked(key, a + p), Masked(key, a), Masked(key, p);
    forall i | 0 <= i < 4 ensures m[i] == x[i] == Xor(a[i], key[i]) {
      MaskAt(key, a + p, i);
      MaskAt(key, a, i);
    }
    forall i | 0 <= i < |p| ensures m[4 + i] == y[i] {
      MaskAt(key, a + p, 4 + i);
      MaskAt(key, p, i);
      FourBack(4 + i);
    }
    assert m == m[..4] + m[4..] && m[..4] == x && m[4..] == y;
  }

  lemma XorZero(b: byte)
    ensures Xor(0, b) == b && Xor(b, b) == 0
  {
    ByteBack(b);
    SameBits(b as bv8);
  }

  lemma SameBits(v: bv8)
    ensures 0 ^ v == v && v ^ v == 0
  {}

  lemma ZerosMasked(key: Key)
    ensures Masked(key, [0, 0, 0, 0]) == key && Masked(key, key) == [0, 0, 0, 0]
  {
    hide Xor;
    var zeros: seq<byte> := [0, 0, 0, 0];
    forall i | 0 <= i < 4 ensures Masked(key, zeros)[i] == key[i] && Masked(key, key)[i] == zeros[i] {
      XorZero(key[i]);
      assert zeros[i] == 0;
    }
  }

  /** Zeros are sent as the key, and the key is sent as zeros. */
  lemma MaskShowsKey(key: Key, p: seq<byte>)
    ensures Masked(key, [0, 0, 0, 0] + p) == key + Masked(key, p)
    ensures Masked(key, key + p) == [0, 0, 0, 0] + Masked(key, p)
  {
    hide Masked;
    ZerosMasked(key);
    MaskGoesRound(key, [0, 0, 0, 0], p);
    MaskGoesRound(key, key, p);
  }

  /** A short masked frame: the key stands in front of the payload, which is read unmasked. */
  lemma MaskedFrame(b0: byte, key: Key, raw: seq<byte>, rest: seq<byte>, max: nat)
    requires |raw| < 126 && |raw| <= max
    ensures Decode([b0, 128 + |raw|] + (key + (raw + rest)), max) == Got(b0 >= 128, b0 % 16, Masked(key, raw), rest)
  {
    hide Masked;
    var input := [b0, 128 + |raw|] + (key + (raw + rest));
    assert input[2..] == key + (raw + rest);
    BodySlices(input, 2, key, raw, rest);
    var n: nat := |raw|;
    assert PayloadLength(input) == Some((n, 2));
    DecodeKnown(input, max, n, 2);
  }

  /** The masked text frame of section 5.7 of RFC 6455. */
  lemma MaskedHello(rest: seq<byte>)
    ensures Decode([0x81, 0x85] + ([0x37, 0xfa, 0x21, 0x3d] + ([0x7f, 0x9f, 0x4d, 0x51, 0x58] + rest)), 5)
         == Got(true, 1, [0x48, 0x65, 0x6c, 0x6c, 0x6f], rest)
  {
    hide Decode, Masked;
    HelloMasked();
    MaskedFrame(0x81, [0x37, 0xfa, 0x21, 0x3d], [0x7f, 0x9f, 0x4d, 0x51, 0x58], rest, 5);
  }

  lemma HelloBits()
    ensures Xor(0x7f, 0x37) == 0x48 && Xor(0x9f, 0xfa) == 0x65
    ensures Xor(0x4d, 0x21) == 0x6c && Xor(0x51, 0x3d) == 0x6c && Xor(0x58, 0x37) == 0x6f
  {}

  lemma HelloMasked()
    ensures Masked([0x37, 0xfa, 0x21, 0x3d], [0x7f, 0x9f, 0x4d, 0x51, 0x58]) == [0x48, 0x65, 0x6c, 0x6c, 0x6f]
  {
    HelloBits();
    hide Xor;
    var key: Key := [0x37, 0xfa, 0x21, 0x3d];
    var m := Masked(key, [0x7f, 0x9f, 0x4d, 0x51, 0x58]);
    assert m[0] == Xor(0x7f, 0x37) && m[1] == Xor(0x9f, 0xfa) && m[2] == Xor(0x4d, 0x21);
    assert m[3] == Xor(0x51, 0x3d) && m[4] == Xor(0x58, 0x37);
  }

  // What is written

  lemma Unmasked(op: Opcode, p: seq<byte>)
    requires |p| < U64
    ensures Written(op, p) == [128 + op] + (LengthBytes(false, |p|) + p)
  {
    hide LengthBytes;
    assert [] + p == p;
  }

  /** The first byte, the length, and the payload as it is: one byte of length. */
  lemma WrittenShort(op: Opcode, p: seq<byte>)
    requires |p| < 126
    ensures Written(op, p) == [128 + op, |p|] + p
  {
    hide Written, LengthBytes;
    Unmasked(op, p);
    Lengths(|p|);
    Behind([128 + op], [|p|], p);
    assert [128 + op] + [|p|] == [128 + op, |p|];
  }

  /** Two bytes of length behind the number 126. */
  lemma WrittenMedium(op: Opcode, p: seq<byte>)
    requires 126 <= |p| < 0x1_0000
    ensures Written(op, p) == [128 + op, 126, |p| / 256, |p| % 256] + p
  {
    hide Written, LengthBytes;
    Unmasked(op, p);
    Lengths(|p|);
    Behind([128 + op], [126, |p| / 256, |p| % 256], p);
    assert [128 + op] + [126, |p| / 256, |p| % 256] == [128 + op, 126, |p| / 256, |p| % 256];
  }

  /** Eight bytes of length behind the number 127. */
  lemma WrittenLong(op: Opcode, p: seq<byte>)
    requires 0x1_0000 <= |p| < U64
    ensures Written(op, p) == [128 + op, 127] + (BigEndian(|p|, 8) + p)
  {
    hide Written, LengthBytes, BigEndian;
    Unmasked(op, p);
    Lengths(|p|);
    Behind([127], BigEndian(|p|, 8), p);
    Behind([128 + op], [127], BigEndian(|p|, 8) + p);
    assert [128 + op] + [127] == [128 + op, 127];
  }

  lemma Behind(a: seq<byte>, b: seq<byte>, p: seq<byte>)
    ensures a + (b + p) == (a + b) + p
  {}

  lemma Lengths(n: nat)
    requires n < U64
    ensures n < 126 ==> LengthBytes(false, n) == [n]
    ensures 126 <= n < 0x1_0000 ==> LengthBytes(false, n) == [126, n / 256, n % 256]
    ensures n >= 0x1_0000 ==> LengthBytes(false, n) == [127] + BigEndian(n, 8)
  {
    if 126 <= n < 0x1_0000 {
      TwoBytes(n);
    }
    hide BigEndian;
  }

  lemma BigEndianBytes()
    ensures BigEndian(0x01020304, 4) == [1, 2, 3, 4] && BigEndian(0x010203040506, 6)[..2] == [1, 2]
  {
    assert BigEndian(0x0102, 2) == [1, 2] by { TwoBytes(0x0102); }
    assert BigEndian(0x010203, 3) == [1, 2] + [3];
    assert BigEndian(0x01020304, 4) == [1, 2, 3] + [4];
    assert BigEndian(0x0102030405, 5) == [1, 2, 3, 4] + [5];
    assert BigEndian(0x010203040506, 6) == [1, 2, 3, 4, 5] + [6];
  }

  /** The two bytes of a close code. */
  lemma CloseCodes()
    ensures CloseFrame(1009) == [0x88, 2, 0x03, 0xf1] && CloseFrame(1003) == [0x88, 2, 0x03, 0xeb]
    ensures CloseFrame(1000) == [0x88, 2, 0x03, 0xe8] && Written(CLOSE, []) == [0x88, 0]
  {
    TwoBytes(1009);
    TwoBytes(1003);
    TwoBytes(1000);
    WrittenShort(CLOSE, [0x03, 0xf1]);
    WrittenShort(CLOSE, [0x03, 0xeb]);
    WrittenShort(CLOSE, [0x03, 0xe8]);
    WrittenShort(CLOSE, []);
  }

  // What is read

  /** A short unmasked frame. */
  lemma ShortFrame(b0: byte, p: seq<byte>, rest: seq<byte>, max: nat)
    requires |p| < 126 && |p| <= max
    ensures Decode([b0, |p|] + (p + rest), max) == Got(b0 >= 128, b0 % 16, p, rest)
  {
    var input := [b0, |p|] + (p + rest);
    Halves([b0, |p|], p + rest);
    Halves(p, rest);
    assert input[2..] == p + rest;
    assert input[2..2 + |p|] == input[2..][..|p|] && input[2 + |p|..] == input[2..][|p|..];
    DecodeKnown(input, max, |p|, 2);
  }

  /** What `read` does with each kind of frame, in bytes. */
  lemma ReadOnWire(b0: byte, p: seq<byte>, rest: seq<byte>, max: nat)
    requires |p| < 126 && |p| <= max < U64
    ensures var o, next := ReadNext([b0, |p|] + (p + rest), max), ReadNext(rest, max);
            && (b0 % 16 == 0x9 ==> o == next.(sent := [0x8a, |p|] + p + next.sent))
            && (b0 % 16 == 0xa ==> o == next)
            && (b0 % 16 == 0x8 ==> o == Outcome(None, [0x88, 0], []))
            && (b0 % 16 !in {0x0, 0x8, 0x9, 0xa} && b0 >= 0x80 ==> o == Outcome(Some(Message(b0 % 16, p)), [], rest))
            && (b0 % 16 == 0x0 || (b0 % 16 !in {0x8, 0x9, 0xa} && b0 < 0x80) ==>
                  o == Outcome(None, [0x88, 2, 0x03, 0xeb], []))
  {
    ShortFrame(b0, p, rest, max);
    WrittenShort(PONG, p);
    CloseCodes();
    hide Decode, Written, CloseFrame;
    if b0 % 16 == 9 {
      Regroup([0x8a, |p|], p, ReadNext(rest, max).sent);
    }
  }

  /** A frame that announces more than the limit is answered with code 1009, before its payload is there. */
  lemma TooLongOnWire(b0: byte, n: nat, rest: seq<byte>, max: nat)
    requires max < n < 126
    ensures ReadNext([b0, n] + rest, max) == Outcome(None, [0x88, 2, 0x03, 0xf1], [])
  {
    var input := [b0, n] + rest;
    CloseCodes();
    hide Written, CloseFrame, Masked;
    assert PayloadLength(input) == Some((n, 2));
    DecodeKnown(input, max, n, 2);
    hide Decode;
  }

  /** The extended lengths are read most significant byte first. */
  lemma LongLengths(b0: byte, hi: byte, lo: byte, rest: seq<byte>)
    ensures var n: nat := 256 * hi + lo; PayloadLength([b0, 126, hi, lo] + rest) == Some((n, 4))
    ensures var n: nat := 256 * hi + lo; PayloadLength([b0, 127, 0, 0, 0, 0, 0, 0, hi, lo] + rest) == Some((n, 10))
  {
    var a, b := [b0, 126, hi, lo] + rest, [b0, 127, 0, 0, 0, 0, 0, 0, hi, lo] + rest;
    assert a[2..4] == [hi, lo] && b[2..10] == [0, 0, 0, 0, 0, 0, hi, lo];
    TwoByteValue([hi, lo]);
    EightBytes(hi, lo);
    hide FromBigEndian;
  }

  lemma OneMoreByte(s: seq<byte>, b: byte)
    ensures FromBigEndian(s + [b]) == 256 * FromBigEndian(s) + b
  {
    assert (s + [b])[..|s|] == s;
  }

  function ZeroBytes(k: nat): seq<byte> {
    seq(k, _ => 0)
  }

  lemma {:induction false} ZerosValue(k: nat)
    ensures FromBigEndian(ZeroBytes(k)) == 0
  {
    if k > 0 {
      ZerosValue(k - 1);
      OneMoreByte(ZeroBytes(k - 1), 0);
      assert ZeroBytes(k) == ZeroBytes(k - 1) + [0];
    }
  }

  lemma {:induction false} LeadingZeros(k: nat, s: seq<byte>)
    ensures FromBigEndian(ZeroBytes(k) + s) == FromBigEndian(s)
    decreases |s|
  {
    hide FromBigEndian, ZeroBytes;
    var z := ZeroBytes(k);
    if s == [] {
      ZerosValue(k);
      ZerosValue(0);
      assert z + [] == z && ZeroBytes(0) == [] by { NoBytes(); }
    } else {
      var front, last := s[..|s| - 1], s[|s| - 1];
      LeadingZeros(k, front);
      OneMoreByte(z + front, last);
      OneMoreByte(front, last);
      assert s == front + [last];
      Behind(z, front, [last]);
    }
  }

  lemma NoBytes()
    ensures ZeroBytes(0) == []
  {}

  lemma EightBytes(hi: byte, lo: byte)
    ensures FromBigEndian([0, 0, 0, 0, 0, 0, hi, lo]) == 256 * hi + lo
  {
    LeadingZeros(6, [hi, lo]);
    TwoByteValue([hi, lo]);
    assert ZeroBytes(6) + [hi, lo] == [0, 0, 0, 0, 0, 0, hi, lo];
  }
}
