/** Chunked transfer coding: the writer, and a reader after section 7.1 of RFC 9112. */
module Chunked {
  import opened Prelude
  import opened Text
  import opened Numerals

  /** Numbers whose `%zx` form, CR, LF and the final NUL do not fit in the 18 bytes given to `snprintf`. */
  const TOO_LONG: nat := 0x1000_0000_0000_0000

  /**
   The chunk-size line that is sent: the first `hex_len` bytes of the 18-byte buffer, where `hex_len` is the
   length the complete line would have. With 16 digits the NUL takes the place of the line feed.
   */
  function SizeLine(n: nat): string {
    if n < TOO_LONG then Digits(n, 16) + "\r\n" else Digits(n, 16) + "\r\0"
  }

  function Chunk(data: string): string {
    SizeLine(|data|) + data + "\r\n"
  }

  const LAST_CHUNK: string := "0\r\n\r\n"

  datatype Op = Write(data: string) | Finish

  /** What a run of operations sends; `finished` tells whether the terminator has been sent already. */
  function Sent(ops: seq<Op>, finished: bool): string {
    if ops == [] then ""
    else
      match ops[0]
      case Write(data) => (if data == "" then "" else Chunk(data)) + Sent(ops[1..], finished)
      case Finish => (if finished then "" else LAST_CHUNK) + Sent(ops[1..], true)
  }

  class ChunkedWriter {
    var sent: string
    var finished: bool

    constructor ()
      ensures sent == "" && !finished
    {
      sent, finished := "", false;
    }

    method WriteChunk(data: string)
      modifies this`sent
      ensures sent == old(sent) + if data == "" then "" else Chunk(data)
    {
      if data == "" {
        return;
      }
      var frame := SizeLine(|data|);
      frame := frame + data;
      frame := frame + "\r\n";
      sent := sent + frame;
    }

    method FinishChunks()
      modifies this
      ensures finished
      ensures sent == old(sent) + if old(finished) then "" else LAST_CHUNK
    {
      if !finished {
        finished := true;
        sent := sent + LAST_CHUNK;
      }
    }

    /** A handler: any list of calls. */
    method Perform(ops: seq<Op>)
      modifies this
      ensures sent == old(sent) + Sent(ops, old(finished))
    {
      ghost var was, f := sent, finished;
      var i := 0;
      while i < |ops|
        invariant 0 <= i <= |ops|
        invariant was + Sent(ops, f) == sent + Sent(ops[i..], finished)
      {
        ghost var before, rest := sent, Sent(ops[i + 1..], finished || ops[i].Finish?);
        assert ops[i..][0] == ops[i] && ops[i..][1..] == ops[i + 1..];
        match ops[i] {
          case Write(data) =>
            WriteChunk(data);
            Regroup(before, if data == "" then "" else Chunk(data), rest);
          case Finish =>
            Regroup(before, if finished then "" else LAST_CHUNK, rest);
            FinishChunks();
        }
        i := i + 1;
      }
    }
  }

  // The reader

  /** How many leading characters are hexadecimal digits. */
  function HexRun(s: string): (k: nat)
    ensures k <= |s| && forall i :: 0 <= i < k ==> IsDigit(s[i], 16)
    ensures k < |s| ==> !IsDigit(s[k], 16)
  {
    if s == "" || !IsDigit(s[0], 16) then 0 else 1 + HexRun(s[1..])
  }

  /** One chunk: its data and what follows it; a chunk of size zero has no data. */
  function ReadChunk(s: string): (r: Option<(string, string)>)
    ensures r.Some? ==> |r.value.1| < |s|
  {
    var k := HexRun(s);
    if k == 0 || !CrlfAt(s, k) then None
    else
      var n := Value(s[..k], 16);
      var t := s[k + 2..];
      if |t| < n || !CrlfAt(t, n) then None else Some((t[..n], t[n + 2..]))
  }

  /** A chunked body: the data up to the chunk of size zero, and what follows the body. */
  function ReadBody(s: string): Option<(string, string)>
    decreases |s|
  {
    match ReadChunk(s)
    case None => None
    case Some((data, rest)) =>
      if data == "" then Some(("", rest))
      else
        match ReadBody(rest)
        case None => None
        case Some((more, end)) => Some((data + more, end))
  }

  /** What the reader makes of a size line, two line-end bytes, and the rest. */
  lemma SizeRead(n: nat, end: string, t: string)
    requires |end| == 2 && end[0] == '\r'
    ensures ReadChunk(Digits(n, 16) + (end + t))
         == if end[1] != '\n' || |t| < n || !CrlfAt(t, n) then None else Some((t[..n], t[n + 2..]))
  {
    hide Digits, Value, HexRun, CrlfAt;
    var d := Digits(n, 16);
    var s := d + (end + t);
    DigitsValue(n, 16);
    HexRunIs(d, end + t);
    Halves(d, end + t);
    SizeLineEnd(d, end, t);
  }

  lemma SizeLineEnd(d: string, end: string, t: string)
    requires |end| == 2 && end[0] == '\r'
    ensures CrlfAt(d + (end + t), |d|) <==> end[1] == '\n'
    ensures (d + (end + t))[|d| + 2..] == t
  {
    var u := end + t;
    var s := d + u;
    Halves(d, u);
    Halves(end, t);
    assert s[|d|] == u[0] && s[|d| + 1] == u[1];
    assert s[|d| + 2..] == s[|d|..][2..];
  }

  /** A chunk is read back exactly when its size fits the size line. */
  lemma ChunkRoundTrip(data: string, rest: string)
    ensures ReadChunk(Chunk(data) + rest) == (if |data| < TOO_LONG then Some((data, rest)) else None)
  {
    var d := Digits(|data|, 16);
    var end := if |data| < TOO_LONG then "\r\n" else "\r\0";
    var t := data + ("\r\n" + rest);
    assert Chunk(data) == d + end + data + "\r\n";
    SizeRead(|data|, end, t);
    hide Digits, Chunk, ReadChunk;
    ChunkRegrouped(d, end, data, rest);
    Halves(data, "\r\n" + rest);
    Halves("\r\n", rest);
    assert t[|data| + 2..] == ("\r\n" + rest)[2..];
  }

  lemma ChunkRegrouped(d: string, end: string, data: string, rest: string)
    ensures (d + end + data + "\r\n") + rest == d + (end + (data + ("\r\n" + rest)))
  {
    Regroup(d + end + data, "\r\n", rest);
    Regroup(d + end, data, "\r\n" + rest);
    Regroup(d, end, data + ("\r\n" + rest));
  }

  lemma HexRunIs(d: string, t: string)
    requires forall i :: 0 <= i < |d| ==> IsDigit(d[i], 16)
    requires t != "" && !IsDigit(t[0], 16)
    ensures HexRun(d + t) == |d|
  {
    assert (d + t)[|d|] == t[0];
  }

  lemma LastChunkEnds(rest: string)
    ensures ReadBody(LAST_CHUNK + rest) == Some(("", rest))
  {
    var s := LAST_CHUNK + rest;
    HexRunIs("0", "\r\n\r\n" + rest);
    assert s == "0" + ("\r\n\r\n" + rest);
    assert Value("0", 16) == 0 by { assert Digits(0, 16) == "0"; DigitsValue(0, 16); }
    assert s[..1] == "0" && s[3..] == "\r\n" + rest && s[3..][2..] == rest;
  }

  /** The data written before the first `finish`. */
  function Written(ops: seq<Op>): string {
    if ops == [] || ops[0].Finish? then "" else ops[0].data + Written(ops[1..])
  }

  /** The operations behind the first `finish`. */
  function Late(ops: seq<Op>): seq<Op> {
    if ops == [] then [] else if ops[0].Finish? then ops[1..] else Late(ops[1..])
  }

  /** The first write before the first `finish` that is too long for its size line. */
  predicate Oversized(ops: seq<Op>) {
    ops != [] && ops[0].Write? && (|ops[0].data| >= TOO_LONG || Oversized(ops[1..]))
  }

  /**
   Any run of calls with a `finish` in it is read back as the data written before the first `finish`, if
   and only if no chunk before it has 2^60 bytes or more. The body ends there: whatever was written
   later is left behind it, and further `finish` calls send nothing.
   */
  lemma {:induction false} ChunkedRoundTrip(ops: seq<Op>, tail: string)
    requires Finish in ops
    ensures ReadBody(Sent(ops, false) + tail)
         == if Oversized(ops) then None else Some((Written(ops), Sent(Late(ops), true) + tail))
  {
    if ops[0].Finish? {
      Regroup(LAST_CHUNK, Sent(ops[1..], true), tail);
      LastChunkEnds(Sent(ops[1..], true) + tail);
    } else {
      var data, rest := ops[0].data, Sent(ops[1..], false) + tail;
      ChunkedRoundTrip(ops[1..], tail);
      if data == "" {
        assert "" + Sent(ops[1..], false) == Sent(ops[1..], false) && "" + Written(ops[1..]) == Written(ops[1..]);
      } else {
        Regroup(Chunk(data), Sent(ops[1..], false), tail);
        ChunkRoundTrip(data, rest);
      }
    }
  }

  /** Without a `finish` there is no complete body, whatever was written. */
  lemma {:induction false} NeverFinished(ops: seq<Op>)
    requires Finish !in ops
    ensures ReadBody(Sent(ops, false)) == None
  {
    hide ReadBody, ReadChunk, Chunk;
    if ops == [] {
      NothingSent();
    } else {
      assert ops[0] in ops && forall op :: op in ops[1..] ==> op in ops;
      NeverFinished(ops[1..]);
      if ops[0].data == "" {
        assert "" + Sent(ops[1..], false) == Sent(ops[1..], false);
      } else {
        ChunkInFront(ops[0].data, Sent(ops[1..], false));
      }
    }
  }

  lemma NothingSent()
    ensures ReadBody("") == None
  {}

  lemma ChunkInFront(data: string, rest: string)
    requires data != "" && ReadBody(rest) == None
    ensures ReadBody(Chunk(data) + rest) == None
  {
    hide ReadChunk, Chunk;
    ChunkRoundTrip(data, rest);
  }

  /** A run of calls makes a complete body exactly when it finishes and no chunk before that is too long. */
  lemma CompleteExactly(ops: seq<Op>)
    ensures ReadBody(Sent(ops, false)).Some? <==> Finish in ops && !Oversized(ops)
    ensures ReadBody(Sent(ops, false)).Some? ==>
              ReadBody(Sent(ops, false)) == Some((Written(ops), Sent(Late(ops), true)))
  {
    hide ReadBody, Sent, Oversized, Written, Late;
    if Finish in ops {
      ChunkedRoundTrip(ops, "");
      assert Sent(ops, false) + "" == Sent(ops, false) && Sent(Late(ops), true) + "" == Sent(Late(ops), true);
    } else {
      NeverFinished(ops);
    }
  }

  /** A handler that finishes last leaves nothing behind the body. */
  lemma {:induction false} FinishedLast(ops: seq<Op>)
    requires Finish in ops && forall op :: op in Late(ops) ==> op == Finish || op == Write("")
    ensures Sent(Late(ops), true) == ""
  {
    NothingLate(Late(ops));
  }

  lemma {:induction false} NothingLate(ops: seq<Op>)
    requires forall op :: op in ops ==> op == Finish || op == Write("")
    ensures Sent(ops, true) == ""
  {
    if ops != [] {
      assert ops[0] in ops && forall op :: op in ops[1..] ==> op in ops;
      NothingLate(ops[1..]);
    }
  }
}
