/** `multipart/form-data` bodies. */
module Multipart {
  import opened Prelude
  import opened Text

  datatype FormFile = FormFile(filename: string, contentType: string, data: string)

  datatype Form = Form(fields: map<string, string>, files: map<string, FormFile>)

  const EMPTY := Form(map[], map[])

  const QUOTE: char := '"'

  /** The quoted string behind the first occurrence of `key`, or nothing. */
  function QuotedAfter(headers: string, key: string): string
    requires key != ""
  {
    var p := Find(headers, key, 0);
    if p == |headers| then ""
    else
      var start := p + |key|;
      var end := IndexOf(headers, QUOTE, start);
      if end == |headers| then "" else headers[start..end]
  }

  const NAME_KEY: string := "name=\""
  const FILE_KEY: string := "filename=\""
  const TYPE_KEY: string := "Content-Type: "
  const TYPE_KEY_LOWER: string := "content-type: "

  /** The content type, from the first header spelled in one of two ways. */
  function TypeOf(headers: string): string {
    var p := Find(headers, TYPE_KEY, 0);
    var q := if p == |headers| then Find(headers, TYPE_KEY_LOWER, 0) else p;
    if q == |headers| then "" else headers[q + 14..FindCrlf(headers, q + 14)]
  }

  /** Adds one part: a part without a name is skipped, one with a file name is a file. */
  function Stored(form: Form, name: string, filename: string, contentType: string, content: string): Form {
    if name == "" then form
    else if filename != "" then
      var t := if contentType == "" then "application/octet-stream" else contentType;
      form.(files := form.files[name := FormFile(filename, t, content)])
    else form.(fields := form.fields[name := content])
  }

  function StoredPart(form: Form, headers: string, content: string): Form {
    Stored(form, QuotedAfter(headers, NAME_KEY), QuotedAfter(headers, FILE_KEY), TypeOf(headers), content)
  }

  /**
   The content in front of a delimiter at position `n` of `v`, where `v` follows the blank line of the part.
   The line break in front of the delimiter is not part of it; with the delimiter directly behind the
   blank line that line break is the blank line's own, the length wraps around, and all of `v` is taken.
   */
  function ContentBefore(v: string, n: nat): string
    requires n <= |v|
  {
    if n == 0 then v else if n >= 2 && CrlfAt(v, n - 2) then v[..n - 2] else v[..n]
  }

  /** The content is a piece of what stands in front of the delimiter, unless nothing stands there. */
  lemma ContentInFront(v: string, n: nat)
    requires n < |v|
    ensures ContentBefore(v, n) <= v[..n] <==> n > 0
    ensures n == 0 ==> ContentBefore(v, n) == v
  {}

  /** A part as it stands in the body, and the text behind the delimiter that closes it. */
  datatype RawPart = RawPart(headers: string, content: string, rest: string)

  /** The part with the given headers whose content starts `v`. */
  function ClosedPart(headers: string, v: string, delim: string): (r: Option<RawPart>)
    requires delim != ""
    ensures r.Some? ==> |r.value.rest| < |v|
  {
    var n := Find(v, delim, 0);
    if n == |v| then None else Some(RawPart(headers, ContentBefore(v, n), v[n + |delim|..]))
  }

  /** The part whose headers start `u`. */
  function PartAt(u: string, delim: string): (r: Option<RawPart>)
    requires delim != ""
    ensures r.Some? ==> |r.value.rest| < |u|
  {
    var h := FindTerm(u, 0);
    if h == |u| then None else ClosedPart(u[..h], u[h + 4..], delim)
  }

  /** The part behind a delimiter, unless that delimiter was the last one or the part is not complete. */
  function NextPart(t: string, delim: string): (r: Option<RawPart>)
    requires delim != ""
    ensures r.Some? ==> |r.value.rest| < |t|
  {
    if |t| < 2 || (t[0] == '-' && t[1] == '-') then None
    else PartAt(if t[0] == '\r' then t[2..] else t, delim)
  }

  /** Reads the parts of a body from the text behind one of its delimiters. */
  function PartsFrom(t: string, delim: string, form: Form): Form
    requires delim != ""
    decreases |t|
  {
    var next := NextPart(t, delim);
    if next.None? then form
    else PartsFrom(next.value.rest, delim, StoredPart(form, next.value.headers, next.value.content))
  }

  function Parsed(body: string, boundary: string): Form {
    var delim := "--" + boundary;
    var pos := Find(body, delim, 0);
    if pos == |body| then EMPTY else PartsFrom(body[pos + |delim|..], delim, EMPTY)
  }

  // The loop over positions

  lemma FindShift(s: string, pat: string, pos: nat)
    requires pos <= |s| && pat != ""
    ensures Find(s, pat, pos) == pos + Find(s[pos..], pat, 0)
  {
    var t := s[pos..];
    forall j: nat ensures Occurs(t, pat, j) == Occurs(s, pat, pos + j) {
      if pos + j + |pat| <= |s| {
        assert t[j..j + |pat|] == s[pos + j..pos + j + |pat|];
      }
    }
    var r, f := Find(t, pat, 0), Find(s, pat, pos);
    assert r < |t| ==> Occurs(s, pat, pos + r);
    assert f < |s| ==> Occurs(t, pat, f - pos);
  }

  lemma TermShift(s: string, pos: nat)
    requires pos <= |s|
    ensures FindTerm(s, pos) == pos + FindTerm(s[pos..], 0)
  {
    var t := s[pos..];
    assert forall j: nat :: TermAt(t, j) == TermAt(s, pos + j);
    var r, f := FindTerm(t, 0), FindTerm(s, pos);
    assert r < |t| ==> TermAt(s, pos + r);
    assert f < |s| ==> TermAt(t, f - pos);
  }

  /** `substr( pos, body_end - pos )`, where a negative count wraps around and takes everything. */
  function Clipped(body: string, pos: nat, end: nat): string
    requires pos <= |body| && end <= |body|
  {
    if end >= pos then body[pos..end] else body[pos..]
  }

  lemma ContentShift(body: string, q: nat, next: nat)
    requires 4 <= q <= next < |body| && TermAt(body, q - 4)
    ensures Clipped(body, q, if CrlfAt(body, next - 2) then next - 2 else next) == ContentBefore(body[q..], next - q)
  {
    var v, n := body[q..], next - q;
    if n >= 2 {
      assert CrlfAt(v, n - 2) == CrlfAt(body, next - 2);
    }
  }

  /** One round of the parser, told in positions of the whole body. */
  lemma OnePart(body: string, delim: string, p: nat, start: nat, h: nat, next: nat)
    requires delim != "" && p + 2 <= |body| && !(body[p] == '-' && body[p + 1] == '-')
    requires start == (if body[p] == '\r' then p + 2 else p) && h == FindTerm(body, start)
    requires h < |body| ==> next == Find(body, delim, h + 4)
    ensures h == |body| || next == |body| ==> NextPart(body[p..], delim) == None
    ensures h < |body| && next < |body| ==>
              NextPart(body[p..], delim)
              == Some(RawPart(body[start..h], ContentBefore(body[h + 4..], next - (h + 4)), body[next + |delim|..]))
  {
    hide NextPart, PartAt, ClosedPart, ContentBefore, Find, FindTerm, Occurs, TermAt;
    FromStart(body, delim, p);
    HeadersAt(body, delim, start, h);
    if h < |body| {
      ClosedAt(body, body[start..h], delim, h + 4, next);
    }
  }

  lemma HeadersAt(body: string, delim: string, start: nat, h: nat)
    requires delim != "" && start <= |body| && h == FindTerm(body, start)
    ensures h == |body| ==> PartAt(body[start..], delim) == None
    ensures h < |body| ==> h + 4 <= |body|
                           && PartAt(body[start..], delim) == ClosedPart(body[start..h], body[h + 4..], delim)
  {
    hide PartAt, ClosedPart, FindTerm;
    var u := body[start..];
    TermShift(body, start);
    PartAtIs(u, delim);
    if h < |body| {
      assert u[..h - start] == body[start..h] && u[h - start + 4..] == body[h + 4..];
    }
  }

  lemma FromStart(body: string, delim: string, p: nat)
    requires delim != "" && p + 2 <= |body| && !(body[p] == '-' && body[p + 1] == '-')
    ensures NextPart(body[p..], delim) == PartAt(body[if body[p] == '\r' then p + 2 else p..], delim)
  {
    hide PartAt;
    assert body[p..][2..] == body[p + 2..];
  }

  lemma PartAtIs(u: string, delim: string)
    requires delim != ""
    ensures FindTerm(u, 0) == |u| ==> PartAt(u, delim) == None
    ensures FindTerm(u, 0) < |u| ==>
              PartAt(u, delim) == ClosedPart(u[..FindTerm(u, 0)], u[FindTerm(u, 0) + 4..], delim)
  {
    hide ClosedPart, FindTerm;
  }

  lemma ClosedAt(body: string, headers: string, delim: string, q: nat, next: nat)
    requires delim != "" && q <= |body| && next == Find(body, delim, q)
    ensures next == |body| ==> ClosedPart(headers, body[q..], delim) == None
    ensures next < |body| ==>
              ClosedPart(headers, body[q..], delim)
              == Some(RawPart(headers, ContentBefore(body[q..], next - q), body[next + |delim|..]))
  {
    hide ContentBefore, Find;
    FindShift(body, delim, q);
    if next < |body| {
      assert body[q..][next - q + |delim|..] == body[next + |delim|..];
    }
  }

  /** Nothing is read behind a delimiter that two hyphens follow, or that ends the body. */
  lemma LastPart(body: string, delim: string, p: nat)
    requires delim != "" && p <= |body|
    requires p + 2 > |body| || (body[p] == '-' && body[p + 1] == '-')
    ensures NextPart(body[p..], delim) == None
  {
    hide ContentBefore, Find, FindTerm;
  }

  // The quoted values and the content type

  /** The search for a quoted value, as the parser writes it out for each key. */
  method ReadQuoted(headers: string, key: string) returns (value: string)
    requires key != ""
    ensures value == QuotedAfter(headers, key)
  {
    hide Find, IndexOf;
    value := "";
    var p := Find(headers, key, 0);
    if p != |headers| {
      p := p + |key|;
      var end := IndexOf(headers, QUOTE, p);
      if end != |headers| {
        value := headers[p..end];
      }
    }
  }

  /** Name, file name and content type of a part, as the parser looks for them. */
  method ReadPartHeaders(headers: string) returns (name: string, filename: string, contentType: string)
    ensures name == QuotedAfter(headers, NAME_KEY)
    ensures filename == QuotedAfter(headers, FILE_KEY)
    ensures contentType == TypeOf(headers)
  {
    hide Find, FindCrlf, QuotedAfter;
    name := ReadQuoted(headers, NAME_KEY);
    filename := ReadQuoted(headers, FILE_KEY);
    contentType := "";
    var ctPos := Find(headers, TYPE_KEY, 0);
    if ctPos == |headers| {
      ctPos := Find(headers, TYPE_KEY_LOWER, 0);
    }
    if ctPos != |headers| {
      ctPos := ctPos + 14;
      // Without a line break the search ends at the end of the headers.
      contentType := headers[ctPos..FindCrlf(headers, ctPos)];
    }
  }

  /** `parse_multipart`. */
  method ParseMultipart(body: string, boundary: string) returns (form: Form)
    ensures form == Parsed(body, boundary)
  {
    hide NextPart, StoredPart, ContentBefore, FindTerm, Find, TypeOf, QuotedAfter, Occurs, Stored;
    form := EMPTY;
    var delim := "--" + boundary;
    var pos := Find(body, delim, 0);
    FindFits(body, delim, 0);
    if pos == |body| {
      return;
    }
    while true
      invariant pos < |body| && pos + |delim| <= |body|
      invariant Parsed(body, boundary) == PartsFrom(body[pos + |delim|..], delim, form)
      decreases |body| - pos
    {
      pos := pos + |delim|;
      ghost var p := pos;
      if pos + 2 > |body| || (body[pos] == '-' && body[pos + 1] == '-') {
        assert NextPart(body[p..], delim) == None by { LastPart(body, delim, p); }
        break;
      }
      if body[pos] == '\r' {
        pos := pos + 2;
      }
      ghost var start := pos;
      var headerEnd := FindTerm(body, pos);
      if headerEnd == |body| {
        OnePart(body, delim, p, start, headerEnd, 0);
        break;
      }
      var headers := body[pos..headerEnd];
      pos := headerEnd + 4;
      var next := Find(body, delim, pos);
      FindFits(body, delim, pos);
      OnePart(body, delim, p, start, headerEnd, next);
      if next == |body| {
        break;
      }
      ContentShift(body, pos, next);
      var content := Clipped(body, pos, if CrlfAt(body, next - 2) then next - 2 else next);
      pos := next;
      var name, filename, contentType := ReadPartHeaders(headers);
      StoredIs(form, headers, content);
      form := Stored(form, name, filename, contentType, content);
    }
  }

  lemma FindFits(s: string, pat: string, from: nat)
    requires from <= |s| && pat != ""
    ensures Find(s, pat, from) < |s| ==> Find(s, pat, from) + |pat| <= |s|
  {}

  lemma StoredIs(form: Form, headers: string, content: string)
    ensures StoredPart(form, headers, content)
         == Stored(form, QuotedAfter(headers, NAME_KEY), QuotedAfter(headers, FILE_KEY), TypeOf(headers), content)
  {}
}
