/** WebSocket frames: encoder, decoder and masking (sections 5.2 and 5.3 of RFC 6455). */
module Frames {
  import opened Prelude
  import opened Bytes
  import opened Text

  function Xor(a: byte, b: byte): byte {
    ((a as bv8) ^ (b as bv8)) as int
  }

  lemma XorTwice(a: byte, b: byte)
    ensures Xor(Xor(a, b), b) == a
  {
    XorTwiceV(a as bv8, b as bv8);
    XorCast(a, b);
    ByteBack(a);
  }

  lemma XorCast(a: byte, b: byte)
    ensures Xor(a, b) as bv8 == (a as bv8) ^ (b as bv8)
  {
    CastBack((a as bv8) ^ (b as bv8));
  }

  lemma CastBack(v: bv8)
    ensures (v as int) as bv8 == v
  {}

  lemma ByteBack(a: byte)
    ensures (a as bv8) as int == a
  {
    CountedBack(a);
    CastBack(Counted(a));
  }

  /** The bit-vector reached by counting up from zero. */
  function Counted(a: byte): bv8 {
    if a == 0 then 0 else Counted(a - 1) + 1
  }

  lemma {:induction false} CountedBack(a: byte)
    ensures Counted(a) as int == a
  {
    if a > 0 {
      CountedBack(a - 1);
      assert Counted(a - 1) < 255;
    }
  }

  lemma XorTwiceV(x: bv8, y: bv8)
    ensures (x ^ y) ^ y == x
  {}

  type Key = k: seq<byte> | |k| == 4 witness [0, 0, 0, 0]

  /** Masking, which is its own inverse. */
  function Masked(key: Key, p: seq<byte>): (m: seq<byte>)
    ensures |m| == |p|
  {
    seq(|p|, i requires 0 <= i < |p| => Xor(p[i], key[i % 4]))
  }

  lemma MaskedTwice(key: Key, p: seq<byte>)
    ensures Masked(key, Masked(key, p)) == p
  {
    forall i | 0 <= i < |p| ensures Masked(key, Masked(key, p))[i] == p[i] {
      XorTwice(p[i], key[i % 4]);
    }
  }

  /** The unmasking loop of `read`. */
  method UnmaskInPlace(key: Key, payload: array<byte>)
    modifies payload
    ensures payload[..] == Masked(key, old(payload[..]))
  {
    ghost var was := payload[..];
    var i := 0;
    while i < payload.Length
      invariant 0 <= i <= payload.Length
      invariant forall j :: 0 <= j < i ==> payload[j] == Xor(was[j], key[j % 4])
      invariant forall j :: i <= j < payload.Length ==> payload[j] == was[j]
    {
      payload[i] := Xor(payload[i], key[i % 4]);
      i := i + 1;
    }
  }

  /** Opcodes are four bits. */
  type Opcode = x: int | 0 <= x < 16

  const CONTINUATION: Opcode := 0
  const CLOSE: Opcode := 8
  const PING: Opcode := 9
  const PONG: Opcode := 10

  datatype Frame = Frame(fin: bool, op: Opcode, mask: Option<Key>, payload: seq<byte>)

  /** The length byte, with the mask bit, and the extended length: always the shortest form. */
  function LengthBytes(masked: bool, n: nat): (s: seq<byte>)
    requires n < U64
    ensures |s| == if n < 126 then 1 else if n < 0x1_0000 then 3 else 9
  {
    var bit := if masked then 128 else 0;
    if n < 126 then [bit + n]
    else if n < 0x1_0000 then [bit + 126] + BigEndian(n, 2)
    else [bit + 127] + BigEndian(n, 8)
  }

  function FirstByte(fin: bool, op: Opcode): byte {
    (if fin then 128 else 0) + op
  }

  function KeyBytes(mask: Option<Key>): seq<byte> {
    if mask.Some? then mask.value else []
  }

  function Sendable(mask: Option<Key>, payload: seq<byte>): (s: seq<byte>)
    ensures |s| == |payload|
  {
    if mask.Some? then Masked(mask.value, payload) else payload
  }

  /** A frame on the wire. */
  function Encoded(f: Frame): seq<byte>
    requires |f.payload| < U64
  {
    [FirstByte(f.fin, f.op)] + (LengthBytes(f.mask.Some?, |f.payload|) + (KeyBytes(f.mask) + Sendable(f.mask, f.payload)))
  }

  /** What the server writes: final and unmasked. */
  function Written(op: Opcode, payload: seq<byte>): seq<byte>
    requires |payload| < U64
  {
    Encoded(Frame(true, op, None, payload))
  }

  /** `n >> ( i * 8 )`. */
  function Shifted(n: nat, i: nat): nat {
    if i == 0 then n else Shifted(n, i - 1) / 256
  }

  /** `write_frame`. */
  method WriteFrame(op: Opcode, payload: seq<byte>) returns (frame: seq<byte>)
    requires |payload| < U64
    ensures frame == Written(op, payload)
  {
    var n := |payload|;
    frame := [128 + op];
    if n < 126 {
      frame := frame + [n];
    } else if n <= 0xFFFF {
      frame := frame + [126];
      frame := frame + [n / 256 % 256];
      frame := frame + [n % 256];
      TwoBytes(n);
    } else {
      frame := frame + [127];
      var i := 7;
      ghost var head := frame;
      assert BigEndian(Shifted(n, 8), 0) == [];
      while i >= 0
        invariant -1 <= i <= 7
        invariant frame == head + BigEndian(Shifted(n, i + 1), 7 - i)
      {
        Regroup(head, BigEndian(Shifted(n, i + 1), 7 - i), [Shifted(n, i) % 256]);
        frame := frame + [Shifted(n, i) % 256];
        i := i - 1;
      }
    }
    frame := frame + payload;
  }

  lemma TwoBytes(n: nat)
    requires n < 0x1_0000
    ensures BigEndian(n, 2) == [n / 256 % 256, n % 256]
  {
    assert BigEndian(n / 256, 1) == BigEndian(n / 256 / 256, 0) + [n / 256 % 256];
  }

  // Decoding

  /** Incomplete input, a payload over the limit, or a frame and what follows it. */
  datatype Decoded = Incomplete | TooBig | Got(fin: bool, op: Opcode, payload: seq<byte>, rest: seq<byte>)

  /** The payload length and the number of header bytes before the masking key. */
  function PayloadLength(input: seq<byte>): (r: Option<(nat, nat)>)
    requires |input| >= 2
    ensures r.Some? ==> 2 <= r.value.1 <= |input|
  {
    var n := input[1] % 128;
    if n == 126 then (if |input| < 4 then None else Some((FromBigEndian(input[2..4]), 4)))
    else if n == 127 then (if |input| < 10 then None else Some((FromBigEndian(input[2..10]), 10)))
    else Some((n, 2))
  }

  function Decode(input: seq<byte>, max: nat): (d: Decoded)
    ensures d.Got? ==> |d.rest| < |input| && |d.payload| <= max
  {
    if |input| < 2 then Incomplete
    else
      match PayloadLength(input)
      case None => Incomplete
      case Some((n, k)) =>
        if n > max then TooBig
        else
          var masked := input[1] >= 128;
          var h := if masked then k + 4 else k;
          if |input| < h + n then Incomplete
          else
            var raw := input[h..h + n];
            Got(input[0] >= 128, input[0] % 16, if masked then Masked(input[k..k + 4], raw) else raw, input[h + n..])
  }

  lemma Prefixed(b0: byte, l: seq<byte>, t: seq<byte>)
    requires l != []
    ensures var input := [b0] + (l + t);
            && |input| == 1 + |l| + |t| && input[0] == b0 && input[1] == l[0]
            && input[2..1 + |l|] == l[1..] && input[1 + |l|..] == t
  {
    var input := [b0] + (l + t);
    assert input[1..] == l + t;
  }

  lemma LengthRead(b0: byte, masked: bool, n: nat, t: seq<byte>)
    requires n < U64
    ensures var l := LengthBytes(masked, n);
            var input := [b0] + (l + t);
            && |input| >= 2 && input[0] == b0 && (input[1] >= 128 <==> masked)
            && PayloadLength(input) == Some((n, 1 + |l|))
            && input[1 + |l|..] == t
  {
    var l := LengthBytes(masked, n);
    Prefixed(b0, l, t);
    Powers();
    if 126 <= n < 0x1_0000 {
      BigEndianRoundTrip(n, 2);
      assert l[1..] == BigEndian(n, 2);
    } else if n >= 0x1_0000 {
      BigEndianRoundTrip(n, 8);
      assert l[1..] == BigEndian(n, 8);
    }
    hide BigEndian, FromBigEndian;
  }

  /** What `Decode` makes of a header that announces `n` bytes. */
  lemma DecodeKnown(input: seq<byte>, max: nat, n: nat, k: nat)
    requires |input| >= 2 && PayloadLength(input) == Some((n, k))
    ensures n > max ==> Decode(input, max) == TooBig
    ensures var h := if input[1] >= 128 then k + 4 else k;
            n <= max && h + n <= |input| ==>
              Decode(input, max)
              == Got(input[0] >= 128, input[0] % 16,
                     if input[1] >= 128 then Masked(input[k..k + 4], input[h..h + n]) else input[h..h + n],
                     input[h + n..])
    ensures var h := if input[1] >= 128 then k + 4 else k;
            n <= max && h + n > |input| ==> Decode(input, max) == Incomplete
  {
    hide PayloadLength, Masked;
  }

  lemma DecodeUnknown(input: seq<byte>, max: nat)
    requires |input| < 2 || PayloadLength(input).None?
    ensures Decode(input, max) == Incomplete
  {}

  lemma EncodedParts(f: Frame, rest: seq<byte>)
    requires |f.payload| < U64
    ensures Encoded(f) + rest
         == [FirstByte(f.fin, f.op)] + (LengthBytes(f.mask.Some?, |f.payload|)
            + (KeyBytes(f.mask) + (Sendable(f.mask, f.payload) + rest)))
  {
    hide LengthBytes, KeyBytes, Sendable, FirstByte;
    var b, l := [FirstByte(f.fin, f.op)], LengthBytes(f.mask.Some?, |f.payload|);
    var key, data := KeyBytes(f.mask), Sendable(f.mask, f.payload);
    Regroup(key, data, rest);
    Regroup(l, key + data, rest);
    Regroup(b, l + (key + data), rest);
  }

  lemma BodySlices(input: seq<byte>, k: nat, key: seq<byte>, data: seq<byte>, rest: seq<byte>)
    requires k <= |input| && input[k..] == key + (data + rest)
    ensures var h := k + |key|;
            && |input| == h + |data| + |rest| && input[k..h] == key
            && input[h..h + |data|] == data && input[h + |data|..] == rest
  {
    var h, t := k + |key|, data + rest;
    Halves(key, t);
    Halves(data, rest);
    assert input[k..h] == input[k..][..|key|];
    assert input[h..] == input[k..][|key|..];
    assert input[h..h + |data|] == input[h..][..|data|];
    assert input[h + |data|..] == input[h..][|data|..];
  }

  /** Every frame is read back as it was, in each of the three length forms, masked or not. */
  lemma FrameRoundTrip(f: Frame, rest: seq<byte>, max: nat)
    requires |f.payload| < U64
    ensures Decode(Encoded(f) + rest, max)
         == if |f.payload| > max then TooBig else Got(f.fin, f.op, f.payload, rest)
  {
    hide Encoded, LengthBytes, PayloadLength, Decode, Masked;
    var n, b0, l := |f.payload|, FirstByte(f.fin, f.op), LengthBytes(f.mask.Some?, |f.payload|);
    var key, data := KeyBytes(f.mask), Sendable(f.mask, f.payload);
    var input := Encoded(f) + rest;
    EncodedParts(f, rest);
    LengthRead(b0, f.mask.Some?, n, key + (data + rest));
    BodySlices(input, 1 + |l|, key, data, rest);
    DecodeKnown(input, max, n, 1 + |l|);
    if f.mask.Some? {
      MaskedTwice(f.mask.value, f.payload);
    }
  }

  /** Whatever a reader accepts as this payload has a header at least as long as the one written. */
  lemma ShortestForm(input: seq<byte>, max: nat, op: Opcode)
    requires Decode(input, max).Got?
    ensures var d := Decode(input, max);
            |d.payload| < U64 && |Written(op, d.payload)| <= |input| - |d.rest|
  {
    var d := Decode(input, max);
    var (n, k) := PayloadLength(input).value;
    Powers();
    if k == 4 {
      FromBigEndianBound(input[2..4]);
    } else if k == 10 {
      FromBigEndianBound(input[2..10]);
    }
    assert |d.payload| == n;
    hide Masked, FromBigEndian, Decode;
  }
}
