/** The reading side of a WebSocket connection: pings are answered, closes echoed, data delivered. */
module WebSocket {
  import opened Prelude
  import opened Bytes
  import opened Text
  import opened Frames

  datatype Message = Message(op: Opcode, data: seq<byte>)

  /** A close frame with a two-byte status code. */
  function CloseFrame(code: nat): seq<byte>
    requires code < 0x1_0000
  {
    Written(CLOSE, BigEndian(code, 2))
  }

  /** What one `read` returns, what it has written, and the input left for the next `read`. */
  datatype Outcome = Outcome(msg: Option<Message>, sent: seq<byte>, rest: seq<byte>)

  /** `max` is below 2^64, as a `size_t` is. */
  function ReadNext(input: seq<byte>, max: nat): (o: Outcome)
    requires max < U64
    ensures o.msg.Some? ==> |o.rest| < |input|
    decreases |input|
  {
    match Decode(input, max)
    case Incomplete => Outcome(None, [], [])
    case TooBig => Outcome(None, CloseFrame(1009), [])
    case Got(fin, op, payload, rest) =>
      if op == PING then
        var o := ReadNext(rest, max);
        o.(sent := Written(PONG, payload) + o.sent)
      else if op == CLOSE then Outcome(None, Written(CLOSE, []), [])
      else if op == PONG then ReadNext(rest, max)
      else if op == CONTINUATION || !fin then Outcome(None, CloseFrame(1003), [])
      else Outcome(Some(Message(op, payload)), [], rest)
  }

  /** A handler that calls `read` until it returns nothing: messages delivered and bytes written. */
  datatype Session = Session(messages: seq<Message>, sent: seq<byte>)

  function ReadAll(input: seq<byte>, max: nat): Session
    requires max < U64
    decreases |input|
  {
    var o := ReadNext(input, max);
    match o.msg
    case None => Session([], o.sent)
    case Some(m) =>
      var s := ReadAll(o.rest, max);
      Session([m] + s.messages, o.sent + s.sent)
  }

  // The connection object

  class Connection {
    var unread: seq<byte>
    var sent: seq<byte>
    const max: nat

    constructor (input: seq<byte>, maxMessageSize: nat)
      ensures unread == input && sent == [] && max == maxMessageSize
    {
      unread, sent, max := input, [], maxMessageSize;
    }

    /** `async_read` of exactly `n` bytes; `None` stands for the exception. */
    method ReadExactly(n: nat) returns (r: Option<seq<byte>>)
      modifies this`unread
      ensures |old(unread)| < n ==> r == None && unread == []
      ensures |old(unread)| >= n ==> r == Some(old(unread)[..n]) && unread == old(unread)[n..]
    {
      if |unread| < n {
        unread := [];
        return None;
      }
      r := Some(unread[..n]);
      unread := unread[n..];
    }

    method Send(op: Opcode, payload: seq<byte>)
      requires |payload| < U64
      modifies this`sent
      ensures sent == old(sent) + Written(op, payload)
    {
      var frame := WriteFrame(op, payload);
      sent := sent + frame;
    }

    method Close(code: nat)
      requires code < 0x1_0000
      modifies this`sent
      ensures sent == old(sent) + CloseFrame(code)
    {
      TwoBytes(code);
      Send(CLOSE, [code / 256, code % 256]);
    }

    /** The three reads before the limit is checked: header, extended length. */
    method ReadLength() returns (r: Option<(byte, byte, nat)>)
      modifies this`unread
      ensures |old(unread)| < 2 || PayloadLength(old(unread)).None? ==> r == None
      ensures |old(unread)| >= 2 && PayloadLength(old(unread)).Some? ==>
                var (n, k) := PayloadLength(old(unread)).value;
                r == Some((old(unread)[0], old(unread)[1], n)) && unread == old(unread)[k..]
    {
      ghost var input := unread;
      var header := ReadExactly(2);
      if header == None {
        return None;
      }
      var n: nat := header.value[1] % 128;
      if n == 126 {
        var ext := ReadExactly(2);
        if ext == None {
          return None;
        }
        assert ext.value == input[2..4];
        TwoByteValue(ext.value);
        n := (ext.value[0] as nat) * 256 + ext.value[1];
      } else if n == 127 {
        var ext := ReadExactly(8);
        if ext == None {
          return None;
        }
        assert ext.value == input[2..10];
        n := 0;
        var i := 0;
        while i < 8
          invariant 0 <= i <= 8 && n == FromBigEndian(ext.value[..i])
        {
          assert ext.value[..i + 1][..i] == ext.value[..i];
          n := n * 256 + ext.value[i];
          i := i + 1;
        }
        assert ext.value[..8] == ext.value;
      }
      r := Some((header.value[0], header.value[1], n));
    }

    /** The rest of the frame, unmasked in place; `None` when the input ends inside it. */
    method ReadPayload(masked: bool, n: nat) returns (r: Option<seq<byte>>)
      modifies this`unread
      ensures var input, h := old(unread), if masked then 4 else 0;
              && (|input| < h + n ==> r == None)
              && (|input| >= h + n ==>
                    && unread == input[h + n..]
                    && r == Some(if masked then Masked(input[..4], input[4..4 + n]) else input[..n]))
    {
      ghost var input := unread;
      var key: Key := [0, 0, 0, 0];
      if masked {
        var k := ReadExactly(4);
        if k == None {
          return None;
        }
        key := k.value;
      }
      var raw := Some([]);
      if n > 0 {
        raw := ReadExactly(n);
        if raw == None {
          return None;
        }
      }
      var payload := new byte[|raw.value|](i requires 0 <= i < |raw.value| => raw.value[i]);
      assert payload[..] == raw.value;
      if masked {
        UnmaskInPlace(key, payload);
      }
      r := Some(payload[..]);
      assert masked ==> raw.value == input[4..4 + n];
    }

    /** The first half of `read`: one frame, its size checked before anything is allocated. */
    method ReadFrame() returns (d: Decoded)
      modifies this`unread
      ensures d == Decode(old(unread), max)
      ensures d.Got? ==> unread == d.rest
    {
      hide PayloadLength, Masked, Decode;
      ghost var input := unread;
      var head := ReadLength();
      if head == None {
        DecodeUnknown(input, max);
        return Incomplete;
      }
      var (b0, b1, n) := head.value;
      var masked := b1 >= 128;
      ghost var k := PayloadLength(input).value.1;
      ghost var h := if masked then 4 else 0;
      DecodeKnown(input, max, n, k);
      if n > max {
        return TooBig;
      }
      var body := ReadPayload(masked, n);
      if body == None {
        return Incomplete;
      }
      TailSlices(input, k, h, n);
      return Got(b0 >= 128, b0 % 16, body.value, unread);
    }

    /** `read`: the next data message, or nothing after a close or an error. */
    method Read() returns (msg: Option<Message>)
      requires max < U64
      modifies this
      ensures var o := ReadNext(old(unread), max);
              && msg == o.msg && sent == old(sent) + o.sent && (msg.Some? ==> unread == o.rest)
      decreases |unread|
    {
      hide Written, CloseFrame, Decode;
      ghost var was := sent;
      assert was + [] == was;
      var d := ReadFrame();
      match d {
        case Incomplete =>
          return None;
        case TooBig =>
          Close(1009);
          return None;
        case Got(fin, op, payload, rest) =>
          if op == PING {
            Send(PONG, payload);
            Regroup(was, Written(PONG, payload), ReadNext(rest, max).sent);
            msg := Read();
          } else if op == CLOSE {
            Send(CLOSE, []);
            return None;
          } else if op == PONG {
            msg := Read();
          } else if op == CONTINUATION || !fin {
            Close(1003);
            return None;
          } else {
            return Some(Message(op, payload));
          }
      }
    }

    /** A handler that reads until nothing is returned. */
    method ReadUntilClosed() returns (messages: seq<Message>)
      requires max < U64
      modifies this
      ensures var s := ReadAll(old(unread), max);
              messages == s.messages && sent == old(sent) + s.sent
      decreases |unread|
    {
      hide ReadNext;
      ghost var was := sent;
      var msg := Read();
      if msg == None {
        return [];
      }
      Regroup(was, ReadNext(old(unread), max).sent, ReadAll(unread, max).sent);
      var more := ReadUntilClosed();
      messages := [msg.value] + more;
    }
  }

  lemma TailSlices(input: seq<byte>, k: nat, h: nat, n: nat)
    requires k + h + n <= |input|
    ensures var t := input[k..];
            && t[..h] == input[k..k + h] && t[h..h + n] == input[k + h..k + h + n]
            && t[h + n..] == input[k + h + n..]
  {}

  lemma TwoByteValue(s: seq<byte>)
    requires |s| == 2
    ensures FromBigEndian(s) == (s[0] as nat) * 256 + s[1]
  {
    assert s[..1][..0] == [];
    assert FromBigEndian(s[..1]) == s[0];
  }

  // Whole runs over frames

  predicate Sized(f: Frame) {
    |f.payload| < U64
  }

  predicate AllSized(fs: seq<Frame>) {
    forall f :: f in fs ==> Sized(f)
  }

  function EncodedAll(fs: seq<Frame>): seq<byte>
    requires AllSized(fs)
  {
    if fs == [] then [] else assert fs[0] in fs; Encoded(fs[0]) + EncodedAll(fs[1..])
  }

  /** Frames that end the session: too long, a close, and unfinished or continued data. */
  predicate Stops(f: Frame, max: nat) {
    || |f.payload| > max
    || f.op == CLOSE
    || (f.op != PING && f.op != PONG && (f.op == CONTINUATION || !f.fin))
  }

  /** The number of frames before the first one that ends the session. */
  function Running(fs: seq<Frame>, max: nat): (k: nat)
    ensures k <= |fs| && (k < |fs| ==> Stops(fs[k], max))
    ensures forall i :: 0 <= i < k ==> !Stops(fs[i], max)
  {
    if fs == [] || Stops(fs[0], max) then 0 else 1 + Running(fs[1..], max)
  }

  /** The data messages among frames: everything that is neither a ping nor a pong. */
  function DataOf(fs: seq<Frame>): seq<Message> {
    if fs == [] then []
    else (if fs[0].op == PING || fs[0].op == PONG then [] else [Message(fs[0].op, fs[0].payload)]) + DataOf(fs[1..])
  }

  /** One pong for every ping, with the same payload. */
  function PongsFor(fs: seq<Frame>): seq<byte>
    requires AllSized(fs)
  {
    if fs == [] then []
    else
      assert fs[0] in fs;
      (if fs[0].op == PING then Written(PONG, fs[0].payload) else []) + PongsFor(fs[1..])
  }

  /** The last frame written: 1009 for a frame that is too long, an empty close for a close, 1003 otherwise. */
  function Farewell(f: Frame, max: nat): seq<byte> {
    if |f.payload| > max then CloseFrame(1009)
    else if f.op == CLOSE then Written(CLOSE, [])
    else CloseFrame(1003)
  }

  /** What a session over these frames amounts to when `tail` follows them. */
  function SessionOf(fs: seq<Frame>, tail: seq<byte>, max: nat): Session
    requires AllSized(fs) && max < U64
  {
    var k := Running(fs, max);
    var end := if k < |fs| then Session([], Farewell(fs[k], max)) else ReadAll(tail, max);
    Session(DataOf(fs[..k]) + end.messages, PongsFor(fs[..k]) + end.sent)
  }

  /** No payload is longer than this. */
  const ANY_SIZE: nat := U64 - 1

  /** The input starts with an encoding of the frame: any length form, any reserved bits, masked or not. */
  predicate StartsWith(input: seq<byte>, f: Frame, rest: seq<byte>) {
    Decode(input, ANY_SIZE) == Got(f.fin, f.op, f.payload, rest)
  }

  lemma WithLimit(input: seq<byte>, f: Frame, rest: seq<byte>, max: nat)
    requires StartsWith(input, f, rest)
    ensures Sized(f) && |rest| < |input|
    ensures Decode(input, max) == if |f.payload| > max then TooBig else Got(f.fin, f.op, f.payload, rest)
  {
    hide PayloadLength, Masked;
  }

  lemma ReadNextUnfold(input: seq<byte>, f: Frame, rest: seq<byte>, max: nat)
    requires StartsWith(input, f, rest) && Sized(f) && max < U64
    ensures var o := ReadNext(input, max);
            && (Stops(f, max) ==> o == Outcome(None, Farewell(f, max), []))
            && (!Stops(f, max) && f.op == PING ==>
                  var p := ReadNext(rest, max); o == p.(sent := Written(PONG, f.payload) + p.sent))
            && (!Stops(f, max) && f.op == PONG ==> o == ReadNext(rest, max))
            && (!Stops(f, max) && f.op != PING && f.op != PONG ==> o == Outcome(Some(Message(f.op, f.payload)), [], rest))
  {
    hide StartsWith, Decode, Written, CloseFrame;
    WithLimit(input, f, rest, max);
  }

  /** One frame in front of a stream adds its message or its pong to the session of the stream. */
  lemma ReadAllUnfold(input: seq<byte>, f: Frame, rest: seq<byte>, max: nat)
    requires StartsWith(input, f, rest) && Sized(f) && max < U64
    ensures ReadAll(input, max)
         == if Stops(f, max) then Session([], Farewell(f, max))
            else
              var s := ReadAll(rest, max);
              if f.op == PING then Session(s.messages, Written(PONG, f.payload) + s.sent)
              else if f.op == PONG then s
              else Session([Message(f.op, f.payload)] + s.messages, s.sent)
  {
    ReadNextUnfold(input, f, rest, max);
    hide ReadNext, StartsWith, Written, Farewell, Stops;
    var o, s := ReadNext(rest, max), ReadAll(rest, max);
    if !Stops(f, max) && f.op == PING && o.msg.Some? {
      Regroup(Written(PONG, f.payload), o.sent, ReadAll(o.rest, max).sent);
    } else if !Stops(f, max) && f.op != PONG {
      assert [] + s.sent == s.sent;
    }
  }

  lemma SizedPrefix(fs: seq<Frame>, n: nat)
    requires AllSized(fs) && n <= |fs|
    ensures AllSized(fs[..n])
  {}

  lemma SessionUnfold(fs: seq<Frame>, tail: seq<byte>, max: nat)
    requires fs != [] && AllSized(fs) && AllSized(fs[1..]) && Sized(fs[0]) && max < U64
    ensures SessionOf(fs, tail, max)
         == if Stops(fs[0], max) then Session([], Farewell(fs[0], max))
            else
              var s := SessionOf(fs[1..], tail, max);
              if fs[0].op == PING then Session(s.messages, Written(PONG, fs[0].payload) + s.sent)
              else if fs[0].op == PONG then s
              else Session([Message(fs[0].op, fs[0].payload)] + s.messages, s.sent)
  {
    hide ReadAll, Written, Farewell, Stops;
    var k := Running(fs, max);
    if Stops(fs[0], max) {
      assert fs[..0] == [] && [] + Farewell(fs[0], max) == Farewell(fs[0], max);
    } else {
      var end := if k < |fs| then Session([], Farewell(fs[k], max)) else ReadAll(tail, max);
      assert fs[..k][0] == fs[0] && fs[..k][1..] == fs[1..][..k - 1];
      SizedPrefix(fs[1..], k - 1);
      var data, pongs := DataOf(fs[1..][..k - 1]), PongsFor(fs[1..][..k - 1]);
      if fs[0].op == PING {
        Regroup(Written(PONG, fs[0].payload), pongs, end.sent);
        assert [] + data == data;
      } else if fs[0].op == PONG {
        assert [] + data == data && [] + pongs == pongs;
      } else {
        Regroup([Message(fs[0].op, fs[0].payload)], data, end.messages);
        assert [] + pongs == pongs;
      }
    }
  }

  /** The input consists of encodings of these frames, one after the other, and the tail. */
  predicate Splits(input: seq<byte>, fs: seq<Frame>, tail: seq<byte>)
    ensures Splits(input, fs, tail) ==> AllSized(fs)
    decreases |fs|
  {
    if fs == [] then input == tail
    else
      var d := Decode(input, ANY_SIZE);
      d.Got? && StartsWith(input, fs[0], d.rest) && Splits(d.rest, fs[1..], tail)
  }

  lemma SplitsStep(input: seq<byte>, fs: seq<Frame>, tail: seq<byte>) returns (rest: seq<byte>)
    requires fs != [] && Splits(input, fs, tail)
    ensures StartsWith(input, fs[0], rest) && Splits(rest, fs[1..], tail) && Sized(fs[0])
  {
    hide Decode;
    rest := Decode(input, ANY_SIZE).rest;
  }

  /**
   Over any input, however its frames are encoded, and whatever follows them, a handler is given exactly the
   finished data frames before the first frame that ends the session, in order; what is written is one
   pong per ping and then the farewell. Without such a frame the session goes on with what follows.
   */
  lemma {:induction false} WholeSession(input: seq<byte>, fs: seq<Frame>, tail: seq<byte>, max: nat)
    requires Splits(input, fs, tail) && max < U64
    ensures ReadAll(input, max) == SessionOf(fs, tail, max)
    decreases |fs|
  {
    if fs == [] {
      var s := ReadAll(tail, max);
      assert fs[..0] == [] && [] + s.messages == s.messages && [] + s.sent == s.sent;
    } else {
      hide ReadAll, SessionOf, StartsWith, Stops, Farewell, Written, Splits;
      var rest := SplitsStep(input, fs, tail);
      WholeSession(rest, fs[1..], tail, max);
      SessionUnfold(fs, tail, max);
      ReadAllUnfold(input, fs[0], rest, max);
    }
  }

  /** The complete frames of an input, and what is left: every input splits. */
  function Arrived(input: seq<byte>): (r: (seq<Frame>, seq<byte>))
    ensures AllSized(r.0)
  {
    match Decode(input, ANY_SIZE)
    case Got(fin, op, payload, rest) =>
      var (fs, tail) := Arrived(rest);
      ([Frame(fin, op, None, payload)] + fs, tail)
    case _ => ([], input)
  }

  lemma {:induction false} ArrivedSplits(input: seq<byte>)
    ensures Splits(input, Arrived(input).0, Arrived(input).1)
    ensures !Decode(Arrived(input).1, ANY_SIZE).Got?
    decreases |input|
  {
    hide Decode;
    var d := Decode(input, ANY_SIZE);
    if d.Got? {
      ArrivedSplits(d.rest);
      assert Arrived(input).0[1..] == Arrived(d.rest).0;
    }
  }

  /** What is left adds nothing but the farewell to a frame that announces too much. */
  lemma LeftOver(tail: seq<byte>, max: nat)
    requires !Decode(tail, ANY_SIZE).Got? && max < U64
    ensures ReadAll(tail, max) == Session([], if Decode(tail, max).TooBig? then CloseFrame(1009) else [])
  {
    assert !Decode(tail, max).Got? by { hide PayloadLength, Masked; }
    hide Decode, CloseFrame;
  }

  /** The session of every input there is. */
  lemma AnySession(input: seq<byte>, max: nat)
    requires max < U64
    ensures var (fs, tail) := Arrived(input);
            && ReadAll(input, max) == SessionOf(fs, tail, max)
            && ReadAll(tail, max) == Session([], if Decode(tail, max).TooBig? then CloseFrame(1009) else [])
  {
    hide Decode, SessionOf, ReadAll, Arrived, CloseFrame;
    ArrivedSplits(input);
    WholeSession(input, Arrived(input).0, Arrived(input).1, max);
    LeftOver(Arrived(input).1, max);
  }

  /** Frames that were printed are an input of this kind. */
  lemma {:induction false} PrintedSplits(fs: seq<Frame>, tail: seq<byte>)
    requires AllSized(fs)
    ensures Splits(EncodedAll(fs) + tail, fs, tail)
    decreases |fs|
  {
    if fs == [] {
      assert [] + tail == tail;
    } else {
      assert fs[0] in fs && forall f :: f in fs[1..] ==> f in fs;
      hide Decode, Encoded;
      var rest := EncodedAll(fs[1..]) + tail;
      FrameRoundTrip(fs[0], rest, ANY_SIZE);
      PrintedSplits(fs[1..], tail);
      Regroup(Encoded(fs[0]), EncodedAll(fs[1..]), tail);
    }
  }

  /** A printed stream that ends after its frames, without a close, just ends the session. */
  lemma EndOfInput(fs: seq<Frame>, max: nat)
    requires AllSized(fs) && max < U64 && Running(fs, max) == |fs|
    ensures ReadAll(EncodedAll(fs), max) == Session(DataOf(fs), PongsFor(fs))
  {
    PrintedSplits(fs, []);
    WholeSession(EncodedAll(fs) + [], fs, [], max);
    assert EncodedAll(fs) + [] == EncodedAll(fs) && fs[..|fs|] == fs;
    assert ReadAll([], max) == Session([], []);
  }
}
