/**
 Reading responses back from a stream: a client that only looks for the end of the head and for the
 first Content-Length field (sections 6.3 and 9.3 of RFC 9112).
 */
module ReplyStream {
  import opened Prelude
  import opened Text
  import opened Numerals
  import opened HeaderBlock
  import opened Response

  /** What a client makes of a response: the status code it reads, the head, and the body. */
  datatype Part = Part(code: Option<nat>, head: string, body: string)

  /** The number behind the protocol version. */
  function CodeOf(head: string): Option<nat> {
    if |head| >= 9 && head[..9] == "HTTP/1.1 " then ParseU64(head[9..]) else None
  }

  /** The fields of a head: everything after the status line. */
  function HeadFields(head: string): seq<Field> {
    var e := FindCrlf(head, 0);
    if e == |head| then [] else Fields(head[e + 2..])
  }

  /** The length announced by a head. */
  function Announced(head: string): Option<nat> {
    match Lookup(HeadFields(head), "content-length")
    case None => None
    case Some(v) => ParseU64(v)
  }

  /** Splits the first response off a stream; the second component is what follows it. */
  function SplitReply(s: string): Option<(Part, string)> {
    var e := HeaderEnd(s);
    if e == 0 then None
    else
      match Announced(s[..e])
      case None => None
      case Some(n) => if |s| < e + n then None else Some((Part(CodeOf(s[..e]), s[..e], s[e..e + n]), s[e + n..]))
  }

  /** Splits exactly `n` responses off a stream. */
  function SplitReplies(s: string, n: nat): Option<(seq<Part>, string)> {
    if n == 0 then Some(([], s))
    else
      match SplitReply(s)
      case None => None
      case Some((p, rest)) =>
        match SplitReplies(rest, n - 1)
        case None => None
        case Some((ps, end)) => Some(([p] + ps, end))
  }

  /** Header names and values that stay on their line, and a date without line breaks. */
  predicate Clean(r: Reply, date: string) {
    AllPrintable(r.headers) && '\r' !in date && |r.body| < U64
  }

  /**
   What the announced length will be: the first custom Content-Length header in any letter case, if there
   is one, and otherwise the size of the body.
   */
  function AnnouncedLength(r: Reply): Option<nat> {
    match Lookup(r.headers, "content-length")
    case None => Some(|r.body|)
    case Some(v) => ParseU64(v[SkipBlanks(v, 0)..])
  }

  lemma {:induction false} HasHeaderFound(headers: seq<Field>)
    requires HasHeader(headers, "Content-Length", "content-length")
    ensures Lookup(headers, "content-length").Some?
  {
    var f :| f in headers && (f.name == "Content-Length" || f.name == "content-length");
    assert SameIgnoringCase(f.name, "content-length");
  }

  lemma OtherNames(date: string, p: PresetContentType)
    ensures Lookup([Field("Server", "Lundi"), Field("Date", date)], "content-length") == None
    ensures Lookup(PresetFields(p), "content-length") == None
  {
    assert !SameIgnoringCase("Server", "content-length");
    assert !SameIgnoringCase("Date", "content-length");
    assert !SameIgnoringCase("Content-Type", "content-length");
  }

  lemma LookupInFive(a: seq<Field>, b: seq<Field>, c: seq<Field>, d: seq<Field>, e: seq<Field>, name: string)
    requires Lookup(a, name) == None && Lookup(b, name) == None
    ensures Lookup(a + (b + (c + (d + e))), name)
         == if Lookup(c, name).Some? then Lookup(c, name)
            else if Lookup(d, name).Some? then Lookup(d, name) else Lookup(e, name)
  {
    hide *;
    LookupConcat(a, b + (c + (d + e)), name);
    LookupConcat(b, c + (d + e), name);
    LookupConcat(c, d + e, name);
    LookupConcat(d, e, name);
  }

  lemma OwnLength(r: Reply)
    requires Lookup(r.headers, "content-length") == None
    ensures Lookup(LengthFields(r), "content-length") == Some(Digits(|r.body|, 10))
  {
    if HasHeader(r.headers, "Content-Length", "content-length") {
      HasHeaderFound(r.headers);
    }
    assert SameIgnoringCase("Content-Length", "content-length");
  }

  lemma LengthLookup(r: Reply, date: string)
    ensures Lookup(ReplyFields(r, date), "content-length")
         == match Lookup(r.headers, "content-length")
            case Some(v) => Some(v)
            case None => Some(Digits(|r.body|, 10))
  {
    OtherNames(date, r.preset);
    if Lookup(r.headers, "content-length").None? {
      OwnLength(r);
    }
    hide Lookup, Digits, LengthFields, ConnectionFields, PresetFields;
    LookupInFive([Field("Server", "Lundi"), Field("Date", date)], PresetFields(r.preset), r.headers,
                 LengthFields(r), ConnectionFields(r), "content-length");
  }

  lemma PrintableConcat(a: seq<Field>, b: seq<Field>)
    ensures AllPrintable(a + b) <==> AllPrintable(a) && AllPrintable(b)
  {
    assert forall f :: f in a + b <==> f in a || f in b;
  }

  lemma ContentTypePrintable(value: string)
    requires '\r' !in value
    ensures AllPrintable([Field("Content-Type", value)])
  {}

  lemma PlainPrintable()
    ensures '\r' !in "text/plain; charset=utf-8"
  {}

  lemma HtmlPrintable()
    ensures '\r' !in "text/html; charset=utf-8"
  {}

  lemma JsonPrintable()
    ensures '\r' !in "application/json; charset=utf-8"
  {}

  lemma PresetPrintable(p: PresetContentType)
    ensures AllPrintable(PresetFields(p))
  {
    PlainPrintable();
    HtmlPrintable();
    JsonPrintable();
    if p != NoPreset {
      ContentTypePrintable(PresetFields(p)[0].value);
    }
    hide AllPrintable;
    assert p == NoPreset ==> PresetFields(p) == [];
  }

  lemma ServerDatePrintable(date: string)
    requires '\r' !in date
    ensures AllPrintable([Field("Server", "Lundi"), Field("Date", date)])
  {}

  lemma LengthPrintable(r: Reply)
    ensures AllPrintable(LengthFields(r))
  {
    DigitsPrintable(|r.body|);
    hide Digits, HasHeader;
  }

  lemma ConnectionPrintable(r: Reply)
    ensures AllPrintable(ConnectionFields(r))
  {
    hide HasHeader;
  }

  lemma ReplyFieldsPrintable(r: Reply, date: string)
    requires Clean(r, date)
    ensures AllPrintable(ReplyFields(r, date))
  {
    var sd := [Field("Server", "Lundi"), Field("Date", date)];
    var p, h, l, c := PresetFields(r.preset), r.headers, LengthFields(r), ConnectionFields(r);
    PresetPrintable(r.preset);
    ServerDatePrintable(date);
    LengthPrintable(r);
    ConnectionPrintable(r);
    assert AllPrintable(h);
    hide AllPrintable, PresetFields, LengthFields, ConnectionFields;
    PrintableConcat(l, c);
    PrintableConcat(h, l + c);
    PrintableConcat(p, h + (l + c));
    PrintableConcat(sd, p + (h + (l + c)));
  }

  lemma DigitsPrintable(n: nat)
    ensures '\r' !in Digits(n, 10) && !IsBlank(Digits(n, 10)[0])
  {
    var d := Digits(n, 10);
    assert IsDigit(d[0], 10);
    forall i | 0 <= i < |d| ensures d[i] != '\r' {
      assert IsDigit(d[i], 10);
    }
  }

  lemma StatusLineIsLine(status: Int32)
    ensures IsLine(StatusLine(status))
  {
    if status != 200 {
      DigitsPrintable(AsU64(status));
      NoReturnInStatusText(status);
      hide Digits, StatusText;
    }
  }

  lemma ReplyHead(r: Reply, date: string, rest: string)
    requires Clean(r, date)
    ensures HeaderEnd(HeadOf(r, date) + rest) == |HeadOf(r, date)| > 0
    ensures HeadFields(HeadOf(r, date)) == AllTrimmed(ReplyFields(r, date))
  {
    var first, fields := StatusLine(r.status), ReplyFields(r, date);
    StatusLineIsLine(r.status);
    ReplyFieldsPrintable(r, date);
    hide StatusLine, ReplyFields, FieldLines, FieldsOfLines, AllPrintable;
    FieldLinesRoundTrip(fields);
    var lines := [first] + FieldLines(fields);
    assert lines[1..] == FieldLines(fields);
    BlockEnd(lines, rest);
    BlockFields(lines[1..]);
    FirstCrlf(first, Block(lines[1..]));
  }

  /** The length a client reads is the one the server announced. */
  lemma ReplyAnnounces(r: Reply, date: string)
    requires Clean(r, date)
    ensures Announced(HeadOf(r, date)) == AnnouncedLength(r)
  {
    ReplyHead(r, date, "");
    LengthLookup(r, date);
    TrimmedLookup(ReplyFields(r, date), "content-length");
    var d := Digits(|r.body|, 10);
    DigitsPrintable(|r.body|);
    ParseU64Digits(|r.body|, "");
    assert d + "" == d && SkipBlanks(d, 0) == 0 && d[0..] == d;
    hide Digits, ParseU64, Lookup, HeadOf, ReplyFields;
  }

  /** The code a client sees; a negative status is seen as the 64-bit number it is cast to. */
  function CodeSeen(status: Int32): (code: nat)
    ensures status >= 0 ==> code == status
  {
    if status >= 0 then status else 0x1_0000_0000_0000_0000 + status
  }

  function PartOf(r: Reply, date: string): Part {
    Part(Some(CodeSeen(r.status)), HeadOf(r, date), r.body)
  }

  lemma CodeInLine(status: Int32, t: string)
    ensures CodeOf(StatusLine(status) + (CRLF + t)) == Some(CodeSeen(status))
  {
    LineParts(status);
    hide CodeOf, StatusLine, StatusText, Digits;
    LineCode(CodeSeen(status), if status == 200 then "OK" else StatusText(status), t);
  }

  lemma LineParts(status: Int32)
    ensures CodeSeen(status) < U64
    ensures StatusLine(status)
         == "HTTP/1.1 " + (Digits(CodeSeen(status), 10) + " " + if status == 200 then "OK" else StatusText(status))
  {
    if status == 200 {
      assert Digits(200, 10) == "200";
      hide Digits;
      assert "HTTP/1.1 " + ("200" + " " + "OK") == "HTTP/1.1 200 OK";
    } else {
      hide Digits, StatusText;
    }
  }

  lemma LineCode(n: nat, text: string, t: string)
    requires n < U64
    ensures CodeOf("HTTP/1.1 " + (Digits(n, 10) + " " + text) + (CRLF + t)) == Some(n)
  {
    hide Digits, ParseU64;
    var rest := " " + (text + (CRLF + t));
    var d := Digits(n, 10);
    ParseU64Digits(n, rest);
    Regroup("HTTP/1.1 ", d + " " + text, CRLF + t);
    Regroup(d + " ", text, CRLF + t);
    Regroup(d, " ", text + (CRLF + t));
    Halves("HTTP/1.1 ", d + rest);
  }

  /** The code of every response is read back. */
  lemma CodeRead(r: Reply, date: string)
    ensures CodeOf(HeadOf(r, date)) == Some(CodeSeen(r.status))
  {
    var first, lines := StatusLine(r.status), FieldLines(ReplyFields(r, date));
    CodeInLine(r.status, Block(lines));
    hide StatusLine, CodeOf, ReplyFields, FieldLines;
    assert ([first] + lines)[1..] == lines;
    Regroup(first, CRLF, Block(lines));
  }

  /**
   A response is split off a stream exactly as it was written, whatever follows it, if and only if its
   custom headers do not announce another length. A header spelled `CONTENT-LENGTH` escapes the server's
   own check, which knows two spellings only.
   */
  lemma SelfDelimiting(r: Reply, date: string, rest: string)
    requires Clean(r, date)
    ensures SplitReply(Serialized(r, date) + rest) == Some((PartOf(r, date), rest))
       <==> AnnouncedLength(r) == Some(|r.body|)
  {
    var head := HeadOf(r, date);
    ReplyHead(r, date, r.body + rest);
    ReplyAnnounces(r, date);
    CodeRead(r, date);
    assert Serialized(r, date) == head + r.body;
    Regroup(head, r.body, rest);
    hide HeadOf, Announced, AnnouncedLength, HeaderEnd, Serialized, Clean, CodeOf;
    SplitAfterHead(head, r.body, rest);
  }

  lemma SplitAfterHead(head: string, body: string, rest: string)
    requires HeaderEnd(head + (body + rest)) == |head| > 0
    ensures SplitReply(head + (body + rest)) == Some((Part(CodeOf(head), head, body), rest)) <==> Announced(head) == Some(|body|)
  {
    hide HeaderEnd, Announced, CodeOf;
    var t := body + rest;
    var s := head + t;
    Halves(head, t);
    Halves(body, rest);
    if Announced(head).Some? {
      var n := Announced(head).value;
      if n <= |t| {
        assert s[|head|..|head| + n] == t[..n] && s[|head| + n..] == t[n..];
      }
    }
  }

  /** How many fields have a name, in any letter case. */
  function CountOf(fields: seq<Field>, name: string): nat {
    if fields == [] then 0 else (if SameIgnoringCase(fields[0].name, name) then 1 else 0) + CountOf(fields[1..], name)
  }

  lemma {:induction false} CountConcat(a: seq<Field>, b: seq<Field>, name: string)
    ensures CountOf(a + b, name) == CountOf(a, name) + CountOf(b, name)
  {
    if a == [] {
      assert a + b == b;
    } else {
      assert (a + b)[0] == a[0] && (a + b)[1..] == a[1..] + b;
      CountConcat(a[1..], b, name);
    }
  }

  lemma {:induction false} CountZero(fields: seq<Field>, name: string)
    requires Lookup(fields, name) == None
    ensures CountOf(fields, name) == 0
  {
    if fields != [] {
      CountZero(fields[1..], name);
    }
  }

  lemma ConnectionIsOther(r: Reply)
    ensures Lookup(ConnectionFields(r), "content-length") == None
  {
    assert !SameIgnoringCase("Connection", "content-length");
  }

  lemma OwnLengthCount(r: Reply)
    ensures CountOf(LengthFields(r), "content-length")
         == if HasHeader(r.headers, "Content-Length", "content-length") then 0 else 1
  {
    hide HasHeader, Digits;
    assert SameIgnoringCase("Content-Length", "content-length");
    if !HasHeader(r.headers, "Content-Length", "content-length") {
      assert LengthFields(r)[1..] == [];
    }
  }

  /**
   The number of length fields in a response: the custom ones, and the server's own unless one of them is
   spelled in one of the two ways it knows.
   */
  lemma LengthFieldsSent(r: Reply, date: string)
    ensures CountOf(ReplyFields(r, date), "content-length")
         == CountOf(r.headers, "content-length")
            + if HasHeader(r.headers, "Content-Length", "content-length") then 0 else 1
  {
    var name := "content-length";
    var sd := [Field("Server", "Lundi"), Field("Date", date)];
    var p, h, l, c := PresetFields(r.preset), r.headers, LengthFields(r), ConnectionFields(r);
    OtherNames(date, r.preset);
    ConnectionIsOther(r);
    OwnLengthCount(r);
    hide PresetFields, LengthFields, ConnectionFields, CountOf, Lookup;
    CountZero(sd, name);
    CountZero(p, name);
    CountZero(c, name);
    CountConcat(l, c, name);
    CountConcat(h, l + c, name);
    CountConcat(p, h + (l + c), name);
    CountConcat(sd, p + (h + (l + c)), name);
  }

  /** Exactly these two spellings are recognised. */
  lemma KnownSpellings(f: Field)
    ensures HasHeader([f], "Content-Length", "content-length") <==> f.name == "Content-Length" || f.name == "content-length"
    ensures HasHeader([f], "Connection", "connection") <==> f.name == "Connection" || f.name == "connection"
  {
    assert f in [f];
  }

  /** An own length in one of them is the only one that is sent. */
  lemma OwnLengthOnly(r: Reply, f: Field, date: string)
    requires r.headers == [f] && (f.name == "Content-Length" || f.name == "content-length")
    ensures CountOf(ReplyFields(r, date), "content-length") == 1
    ensures Lookup(ReplyFields(r, date), "content-length") == Some(f.value)
  {
    assert SameIgnoringCase("Content-Length", "content-length");
    OneFieldOnly(f, "content-length");
    KnownSpellings(f);
    LengthFieldsSent(r, date);
    LengthLookup(r, date);
  }

  /** A one-byte response with a length spelled in a way the server does not know. */
  const MISSPELT: Field := Field("CONTENT-LENGTH", "0")

  const CUT_SHORT: Reply := Reply(200, NoPreset, [MISSPELT], "x")

  lemma SameLetters()
    ensures SameIgnoringCase("CONTENT-LENGTH", "content-length")
    ensures "CONTENT-LENGTH" != "Content-Length" && "CONTENT-LENGTH" != "content-length"
  {
    assert "CONTENT-LENGTH"[1] != "Content-Length"[1] && "CONTENT-LENGTH"[1] != "content-length"[1];
  }

  lemma OneFieldOnly(f: Field, name: string)
    requires SameIgnoringCase(f.name, name)
    ensures Lookup([f], name) == Some(f.value) && CountOf([f], name) == 1
  {
    assert [f][1..] == [];
  }

  lemma CutShortIsClean(date: string)
    requires '\r' !in date
    ensures Clean(CUT_SHORT, date) && AnnouncedLength(CUT_SHORT) == Some(0)
    ensures CountOf(CUT_SHORT.headers, "content-length") == 1
    ensures !HasHeader(CUT_SHORT.headers, "Content-Length", "content-length")
  {
    SameLetters();
    OneFieldOnly(MISSPELT, "content-length");
    ZeroRead();
    MisspeltPrintable();
    hide SameIgnoringCase, Lookup, CountOf, Printable, ParseU64, SkipBlanks;
    assert forall f :: f in CUT_SHORT.headers ==> f == MISSPELT;
  }

  lemma MisspeltPrintable()
    ensures Printable(MISSPELT)
  {}

  lemma ZeroRead()
    ensures ParseU64("0"[SkipBlanks("0", 0)..]) == Some(0)
  {
    ParseU64Digits(0, "");
    assert Digits(0, 10) + "" == "0";
    assert "0"[0..] == "0";
  }

  lemma SplitShort(head: string, t: string)
    requires HeaderEnd(head + t) == |head| > 0 && Announced(head) == Some(0)
    ensures SplitReply(head + t) == Some((Part(CodeOf(head), head, ""), t))
  {
    hide HeaderEnd, Announced, CodeOf;
    Halves(head, t);
    var s := head + t;
    assert s[|head|..|head| + 0] == "" && s[|head| + 0..] == t;
  }

  /** It is sent with two lengths, and a client that believes the first takes the body for what follows. */
  lemma MisspeltLength(date: string, rest: string)
    requires '\r' !in date
    ensures CountOf(ReplyFields(CUT_SHORT, date), "content-length") == 2
    ensures SplitReply(Serialized(CUT_SHORT, date) + rest) == Some((Part(Some(200), HeadOf(CUT_SHORT, date), ""), "x" + rest))
  {
    hide HeadOf, Announced, HeaderEnd, Clean, ReplyFields, HasHeader, AnnouncedLength, CountOf, SplitReply, CodeOf;
    var r := CUT_SHORT;
    CodeRead(r, date);
    CutShortIsClean(date);
    LengthFieldsSent(r, date);
    ReplyHead(r, date, "x" + rest);
    ReplyAnnounces(r, date);
    var head := HeadOf(r, date);
    Regroup(head, "x", rest);
    SplitShort(head, "x" + rest);
  }

  function Parts(rs: seq<Reply>, dates: seq<string>): seq<Part>
    requires |rs| == |dates|
  {
    if rs == [] then [] else [PartOf(rs[0], dates[0])] + Parts(rs[1..], dates[1..])
  }

  function SerializedAll(rs: seq<Reply>, dates: seq<string>): string
    requires |rs| == |dates|
  {
    if rs == [] then "" else Serialized(rs[0], dates[0]) + SerializedAll(rs[1..], dates[1..])
  }

  /** Every list of responses without a custom length splits back into its heads and bodies. */
  lemma {:induction false} ManySelfDelimiting(rs: seq<Reply>, dates: seq<string>, rest: string)
    requires |rs| == |dates| && forall i :: 0 <= i < |rs| ==> Clean(rs[i], dates[i])
    requires forall i :: 0 <= i < |rs| ==> AnnouncedLength(rs[i]) == Some(|rs[i].body|)
    ensures SplitReplies(SerializedAll(rs, dates) + rest, |rs|) == Some((Parts(rs, dates), rest))
  {
    if rs == [] {
      assert "" + rest == rest;
    } else {
      var first, others := Serialized(rs[0], dates[0]), SerializedAll(rs[1..], dates[1..]);
      Regroup(first, others, rest);
      SelfDelimiting(rs[0], dates[0], others + rest);
      ManySelfDelimiting(rs[1..], dates[1..], rest);
      SplitMore(first + (others + rest), |rs| - 1, PartOf(rs[0], dates[0]), others + rest,
                Parts(rs[1..], dates[1..]), rest);
      hide Serialized, SplitReply, SplitReplies, Clean, AnnouncedLength, HeadOf, PartOf;
    }
  }

  lemma SplitMore(s: string, n: nat, p: Part, rest: string, ps: seq<Part>, end: string)
    requires SplitReply(s) == Some((p, rest)) && SplitReplies(rest, n) == Some((ps, end))
    ensures SplitReplies(s, n + 1) == Some(([p] + ps, end))
  {
    hide SplitReply;
  }
}
