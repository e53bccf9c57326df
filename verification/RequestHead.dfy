/** The request head: request line, path, query parameters and up to 32 header fields. */
module RequestHead {
  import opened Text
  import opened UrlCoding
  import opened HeaderBlock

  const MAX_HEADERS: nat := 32

  /** A parsed request head; an unparsable one has an empty method. */
  datatype Request = Request(method_: string, path: string, rawPath: string,
                             query: seq<(string, string)>, headers: seq<Field>)

  const NO_REQUEST := Request("", "", "", [], [])

  datatype RequestLine = RequestLine(method_: string, path: string, rawPath: string, query: seq<(string, string)>)

  /** Splits a request line at its first two spaces, and the target at its first question mark. */
  function ParsedLine(line: string): RequestLine {
    var sp1 := IndexOf(line, ' ', 0);
    if sp1 == |line| then RequestLine("", "", "", [])
    else
      var sp2 := IndexOf(line, ' ', sp1 + 1);
      if sp2 == |line| then RequestLine("", "", "", [])
      else
        var raw := line[sp1 + 1..sp2];
        var q := IndexOf(raw, '?', 0);
        RequestLine(line[..sp1], UrlDecoded(raw[..q]), raw, if q == |raw| then [] else QueryPairs(raw[q + 1..]))
  }

  function FirstHeaders(fields: seq<Field>): seq<Field> {
    if |fields| <= MAX_HEADERS then fields else fields[..MAX_HEADERS]
  }

  /** What a head means: the decoded request line and the first 32 fields. */
  function ParsedHead(s: string): Request {
    var e := FindCrlf(s, 0);
    if e == |s| then NO_REQUEST
    else
      var l := ParsedLine(s[..e]);
      Request(l.method_, l.path, l.rawPath, l.query, FirstHeaders(Fields(s[e + 2..])))
  }

  /** A path is decoded only when it holds something to decode. */
  method DecodePath(raw: string) returns (path: string)
    ensures path == UrlDecoded(raw)
  {
    if IndexOf(raw, '%', 0) == |raw| && IndexOf(raw, '+', 0) == |raw| {
      NothingToDecode(raw);
      path := raw;
    } else {
      path := UrlDecode(raw);
    }
  }

  lemma WithoutTarget(line: string)
    requires IndexOf(line, ' ', 0) == |line| || IndexOf(line, ' ', IndexOf(line, ' ', 0) + 1) == |line|
    ensures ParsedLine(line) == RequestLine("", "", "", [])
  {}

  lemma WithTarget(line: string, sp1: nat, sp2: nat)
    requires sp1 == IndexOf(line, ' ', 0) < |line| && sp2 == IndexOf(line, ' ', sp1 + 1) < |line|
    ensures var raw := line[sp1 + 1..sp2];
            var q := IndexOf(raw, '?', 0);
            ParsedLine(line) == RequestLine(line[..sp1], UrlDecoded(raw[..q]), raw,
                                            if q == |raw| then [] else QueryPairs(raw[q + 1..]))
  {
    hide UrlDecoded, QueryPairs;
  }

  method ParseRequestLine(line: string) returns (r: RequestLine)
    ensures r == ParsedLine(line)
  {
    hide ParsedLine, UrlDecoded, QueryPairs, IndexOf;
    r := RequestLine("", "", "", []);
    var sp1 := IndexOf(line, ' ', 0);
    // With no first space the second search starts over at 0 and fails as well.
    var sp2 := IndexOf(line, ' ', if sp1 == |line| then 0 else sp1 + 1);
    if sp1 != |line| && sp2 != |line| {
      WithTarget(line, sp1, sp2);
      var raw := line[sp1 + 1..sp2];
      var q := IndexOf(raw, '?', 0);
      if q != |raw| {
        var path := DecodePath(raw[..q]);
        var query := ParseQueryString(raw[q + 1..]);
        r := RequestLine(line[..sp1], path, raw, query);
      } else {
        var path := DecodePath(raw);
        assert raw[..q] == raw;
        r := RequestLine(line[..sp1], path, raw, []);
      }
    } else {
      WithoutTarget(line);
    }
  }

  lemma {:induction false} CrlfShift(s: string, pos: nat)
    requires pos <= |s|
    ensures FindCrlf(s, pos) == pos + FindCrlf(s[pos..], 0)
  {
    var t := s[pos..];
    assert forall j: nat :: j + 2 <= |t| ==> CrlfAt(t, j) == CrlfAt(s, pos + j);
    var r := FindCrlf(t, 0);
    if r < |t| {
      assert CrlfAt(s, pos + r);
    }
    forall j | pos <= j < pos + r ensures !CrlfAt(s, j) {
      assert !CrlfAt(t, j - pos);
    }
    var f := FindCrlf(s, pos);
    if f < |s| {
      assert CrlfAt(t, f - pos);
    }
  }

  function FieldsFrom(data: string, pos: nat): seq<Field>
    requires pos <= |data|
  {
    Fields(data[pos..])
  }

  lemma FieldsStep(data: string, pos: nat)
    requires pos <= |data|
    ensures FindCrlf(data, pos) < |data| ==> FindCrlf(data, pos) + 2 <= |data|
    ensures var next := FindCrlf(data, pos);
            FieldsFrom(data, pos) == if next == |data| || next == pos then []
                                     else FieldsOfLine(data[pos..next]) + FieldsFrom(data, next + 2)
  {
    CrlfShift(data, pos);
    hide FieldsOfLine, FindCrlf;
    var rest, next := data[pos..], FindCrlf(data, pos);
    if pos < next < |data| {
      assert rest[..next - pos] == data[pos..next];
      assert rest[next - pos + 2..] == data[next + 2..];
    }
  }

  /** One header line: stored when it has a colon and there is room. */
  method StoreField(headers: seq<Field>, line: string) returns (more: seq<Field>)
    ensures |headers| < MAX_HEADERS ==> more == headers + FieldsOfLine(line)
    ensures |headers| >= MAX_HEADERS ==> more == headers
  {
    more := headers;
    var colon := IndexOf(line, ':', 0);
    if colon != |line| && |headers| < MAX_HEADERS {
      more := headers + [Field(line[..colon], line[SkipBlanks(line, colon + 1)..])];
    }
  }

  /** The fields stored so far, against all of them: complete while there is room, their first 32 after that. */
  predicate StoredSoFar(headers: seq<Field>, all: seq<Field>, rest: seq<Field>) {
    if |headers| < MAX_HEADERS then all == headers + rest else |headers| == MAX_HEADERS && headers <= all
  }

  lemma StoreMore(headers: seq<Field>, more: seq<Field>, all: seq<Field>, line: string, rest: seq<Field>)
    requires StoredSoFar(headers, all, FieldsOfLine(line) + rest)
    requires more == if |headers| < MAX_HEADERS then headers + FieldsOfLine(line) else headers
    ensures StoredSoFar(more, all, rest)
  {
    Regroup(headers, FieldsOfLine(line), rest);
    assert |FieldsOfLine(line)| <= 1;
  }

  lemma StoredNone(all: seq<Field>)
    ensures StoredSoFar([], all, all)
  {
    assert [] + all == all;
  }

  lemma StoredAll(headers: seq<Field>, all: seq<Field>)
    requires StoredSoFar(headers, all, [])
    ensures headers == FirstHeaders(all)
  {
    assert headers + [] == headers;
  }

  /** The header loop, from the line after the request line. */
  method ParseFields(data: string, start: nat) returns (headers: seq<Field>)
    requires start <= |data|
    ensures headers == FirstHeaders(FieldsFrom(data, start))
  {
    hide *;
    ghost var all := FieldsFrom(data, start);
    headers := [];
    StoredNone(all);
    var pos := start;
    while pos < |data|
      invariant pos <= |data|
      invariant StoredSoFar(headers, all, FieldsFrom(data, pos))
    {
      var next := FindCrlf(data, pos);
      FieldsStep(data, pos);
      if next == |data| || next == pos {
        break;
      }
      ghost var was := headers;
      var hline := data[pos..next];
      headers := StoreField(headers, hline);
      StoreMore(was, headers, all, hline, FieldsFrom(data, next + 2));
      pos := next + 2;
    }
    FieldsStep(data, pos);
    StoredAll(headers, all);
  }

  method ParseHeaders(data: string) returns (req: Request)
    ensures req == ParsedHead(data)
  {
    hide ParsedLine;
    req := NO_REQUEST;
    var lineEnd := FindCrlf(data, 0);
    if lineEnd == |data| {
      return;
    }
    var line := ParseRequestLine(data[..lineEnd]);
    var headers := ParseFields(data, lineEnd + 2);
    req := Request(line.method_, line.path, line.rawPath, line.query, headers);
  }

  // Printing

  /** A method token: not empty, no space, no carriage return. */
  predicate IsMethod(m: string) {
    m != "" && ' ' !in m && '\r' !in m
  }

  function Target(path: string, query: seq<(string, string)>): (t: string)
    requires AllBytes(path) && BytePairs(query)
    ensures ' ' !in t && '\r' !in t
  {
    UrlEncoded(path) + (if query == [] then "" else "?" + QueryText(query))
  }

  function RequestLineText(method_: string, path: string, query: seq<(string, string)>): string
    requires AllBytes(path) && BytePairs(query)
  {
    method_ + " " + (Target(path, query) + " " + "HTTP/1.1")
  }

  /** A request head as a client writes it. */
  function HeadLines(method_: string, path: string, query: seq<(string, string)>, headers: seq<Field>): seq<string>
    requires AllBytes(path) && BytePairs(query)
  {
    [RequestLineText(method_, path, query)] + FieldLines(headers)
  }

  function HeadText(method_: string, path: string, query: seq<(string, string)>, headers: seq<Field>): string
    requires AllBytes(path) && BytePairs(query)
  {
    Block(HeadLines(method_, path, query, headers))
  }

  /** Splitting a string at the first separator gives back the two printed halves. */
  lemma SplitAt(a: string, sep: char, b: string)
    requires sep !in a
    ensures var s := a + [sep] + b;
            IndexOf(s, sep, 0) == |a| && s[..|a|] == a && s[|a| + 1..] == b
  {
    var s := a + [sep] + b;
    assert forall j :: 0 <= j < |a| ==> s[j] == a[j] && a[j] in a;
    IndexOfIs(s, sep, 0, |a|);
  }

  lemma NotFound(s: string, c: char)
    requires c !in s
    ensures IndexOf(s, c, 0) == |s|
  {}

  lemma TargetParts(path: string, query: seq<(string, string)>)
    requires AllBytes(path) && BytePairs(query)
    ensures Target(path, query)
         == if query == [] then UrlEncoded(path) else UrlEncoded(path) + ['?'] + QueryText(query)
  {}

  lemma TargetRoundTrip(path: string, query: seq<(string, string)>)
    requires AllBytes(path) && BytePairs(query)
    ensures var t := Target(path, query);
            var q := IndexOf(t, '?', 0);
            UrlDecoded(t[..q]) == path && (if q == |t| then [] else QueryPairs(t[q + 1..])) == query
  {
    var p := UrlEncoded(path);
    DecodeEncoded(path);
    QueryRoundTrip(query);
    TargetParts(path, query);
    hide *;
    if query == [] {
      NotFound(p, '?');
      assert p[..|p|] == p;
    } else {
      SplitAt(p, '?', QueryText(query));
    }
  }

  lemma SliceEnds(s: string, from: nat, a: string, sep: char)
    requires from + |a| < |s| && s[from..from + |a|] == a && s[from + |a|] == sep && sep !in a
    ensures IndexOf(s, sep, from) == from + |a|
  {
    forall j | from <= j < from + |a| ensures s[j] != sep {
      assert s[j] == a[j - from] && a[j - from] in a;
    }
    IndexOfIs(s, sep, from, from + |a|);
  }

  lemma LineSpaces(l: string, m: string, t: string, tail: string)
    requires ' ' !in m && ' ' !in t && l == m + " " + (t + " " + tail)
    ensures IndexOf(l, ' ', 0) == |m| && IndexOf(l, ' ', |m| + 1) == |m| + 1 + |t|
    ensures l[..|m|] == m && l[|m| + 1..|m| + 1 + |t|] == t
  {
    var r := t + " " + tail;
    assert l[..|m|] == m && l[|m|] == ' ' && l[|m| + 1..] == r;
    assert r[..|t|] == t && r[|t|] == ' ';
    assert l[|m| + 1..|m| + 1 + |t|] == r[..|t|];
    assert l[|m| + 1 + |t|] == r[|t|];
    SliceEnds(l, 0, m, ' ');
    SliceEnds(l, |m| + 1, t, ' ');
  }

  lemma LineParts(l: string, m: string, t: string, tail: string)
    requires ' ' !in m && ' ' !in t && l == m + " " + (t + " " + tail)
    ensures ParsedLine(l).method_ == m && ParsedLine(l).rawPath == t
    ensures var q := IndexOf(t, '?', 0);
            && ParsedLine(l).path == UrlDecoded(t[..q])
            && ParsedLine(l).query == if q == |t| then [] else QueryPairs(t[q + 1..])
  {
    LineSpaces(l, m, t, tail);
    hide UrlDecoded, QueryPairs, IndexOf;
  }

  lemma NoReturns(m: string, t: string)
    requires '\r' !in m && '\r' !in t
    ensures '\r' !in m + " " + (t + " " + "HTTP/1.1")
  {
    var tail := t + " " + "HTTP/1.1";
    assert '\r' !in " " + "HTTP/1.1";
    assert tail == t + (" " + "HTTP/1.1");
  }

  lemma LineRoundTrip(method_: string, path: string, query: seq<(string, string)>)
    requires IsMethod(method_) && AllBytes(path) && BytePairs(query)
    ensures IsLine(RequestLineText(method_, path, query))
    ensures ParsedLine(RequestLineText(method_, path, query))
         == RequestLine(method_, path, Target(path, query), query)
  {
    hide Target, ParsedLine, UrlDecoded, QueryPairs, IndexOf, AllBytes, BytePairs;
    var t := Target(path, query);
    TargetRoundTrip(path, query);
    LineParts(RequestLineText(method_, path, query), method_, t, "HTTP/1.1");
    NoReturns(method_, t);
  }

  /** A block is read as its first line and the fields of the others. */
  lemma HeadOfBlock(first: string, lines: seq<string>)
    requires IsLine(first) && AreLines(lines)
    ensures var l := ParsedLine(first);
            var headers := FirstHeaders(FieldsOfLines(lines));
            ParsedHead(Block([first] + lines)) == Request(l.method_, l.path, l.rawPath, l.query, headers)
  {
    hide ParsedLine, Fields, FieldsOfLines, FirstHeaders, AreLines;
    assert ([first] + lines)[1..] == lines;
    BlockFields(lines);
    FirstCrlf(first, Block(lines));
  }

  /**
   A printed head, with whatever follows it, ends where it was printed to end. It is read back as it was,
   except for the fields behind the 32nd: all of them are read exactly when there are at most 32.
   */
  lemma HeadRoundTrip(method_: string, path: string, query: seq<(string, string)>, headers: seq<Field>, rest: string)
    requires IsMethod(method_) && AllBytes(path) && BytePairs(query)
    requires AllPrintable(headers)
    ensures var head := HeadText(method_, path, query, headers);
            && HeaderEnd(head + rest) == |head|
            && ParsedHead(head) == Request(method_, path, Target(path, query), query, FirstHeaders(AllTrimmed(headers)))
            && (FirstHeaders(AllTrimmed(headers)) == AllTrimmed(headers) <==> |headers| <= 32)
  {
    var first, lines := RequestLineText(method_, path, query), FieldLines(headers);
    hide ParsedHead, ParsedLine, RequestLineText, FieldLines, FieldsOfLines, Block, IsMethod, AllBytes, BytePairs,
         HeaderEnd, Target, AllTrimmed, AllPrintable, IsLine;
    LineRoundTrip(method_, path, query);
    FieldLinesRoundTrip(headers);
    LinesInFront(first, lines);
    BlockEnd([first] + lines, rest);
    HeadOfBlock(first, lines);
    TrimmedLookup(headers, "");
  }

  /** Fields whose values do not start with a blank come back unchanged. */
  lemma HeadUnchanged(method_: string, path: string, query: seq<(string, string)>, headers: seq<Field>)
    requires IsMethod(method_) && AllBytes(path) && BytePairs(query)
    requires AllPrintable(headers) && |headers| <= MAX_HEADERS
    requires forall f :: f in headers ==> f.value != "" ==> !IsBlank(f.value[0])
    ensures ParsedHead(HeadText(method_, path, query, headers))
         == Request(method_, path, Target(path, query), query, headers)
  {
    hide ParsedHead, HeadText, AllTrimmed, AllPrintable, Target, IsMethod, AllBytes, BytePairs;
    HeadRoundTrip(method_, path, query, headers, "");
    TrimmedUnchanged(headers);
  }

  lemma LinesInFront(first: string, lines: seq<string>)
    requires IsLine(first) && AreLines(lines)
    ensures AreLines([first] + lines)
  {}
}
