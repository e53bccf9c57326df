/** Multipart bodies as browsers write them, and that the parser recovers every part. */
module MultipartPrinting {
  import opened Prelude
  import opened Text
  import opened Multipart

  /** A form part; an empty file name means a text field, an empty content type that none is given. */
  datatype Part = Part(name: string, filename: string, contentType: string, data: string)

  const HEAD: string := "Content-Disposition: form-data; name=\""
  const FILE_MARK: string := "\"; filename=\""
  const TYPE_MARK: string := "\r\nContent-Type: "

  function FileText(filename: string): string {
    if filename == "" then "\"" else FILE_MARK + (filename + "\"")
  }

  /** The disposition line. */
  function Disposition(p: Part): string {
    HEAD + (p.name + FileText(p.filename))
  }

  function TypeText(contentType: string): string {
    if contentType == "" then "" else TYPE_MARK + contentType
  }

  function HeadersText(p: Part): string {
    Disposition(p) + TypeText(p.contentType)
  }

  /** What follows the first delimiter: every part with the delimiter behind it, and at last two hyphens. */
  function Rest(parts: seq<Part>, delim: string, epilogue: string): string {
    if parts == [] then "--" + epilogue
    else
      "\r\n" + (HeadersText(parts[0]) + ("\r\n\r\n" + (parts[0].data + ("\r\n" + (delim + Rest(parts[1..], delim, epilogue))))))
  }

  function FormText(parts: seq<Part>, boundary: string, epilogue: string): string {
    "--" + boundary + Rest(parts, "--" + boundary, epilogue)
  }

  /** The form that was meant: later parts of the same kind and name replace earlier ones. */
  function Meant(form: Form, parts: seq<Part>): Form
    decreases |parts|
  {
    if parts == [] then form
    else
      var p := parts[0];
      Meant(Stored(form, p.name, p.filename, p.contentType, p.data), parts[1..])
  }

  const LURE: string := "filename="

  predicate EndsIn(s: string, t: string) {
    |s| >= |t| && s[|s| - |t|..] == t
  }

  /** What is read instead when the file name's key is taken for a part of the name. */
  const LURED: string := "; filename="

  ghost predicate Lacks(s: string, key: string) {
    forall j: nat :: !Occurs(s, key, j)
  }

  /** Text that can stand between quotes in the disposition line. */
  predicate Quotable(s: string) {
    QUOTE !in s && '\r' !in s
  }

  /** A part of which the three values can be written on their lines. */
  predicate Writable(p: Part) {
    && p.name != "" && Quotable(p.name) && Quotable(p.filename)
    && QUOTE !in p.contentType && '\r' !in p.contentType
  }

  /** The name does not end like the key of the file name, or the wrong file name happens to be right. */
  predicate FileReadable(p: Part) {
    p.filename != "" ==> !EndsIn(p.name, LURE) || p.filename == LURED
  }

  /**
   Nothing in the disposition line looks like a content type header. The second spelling is looked for
   only when the first is not found, and the first is the one that is printed.
   */
  ghost predicate TypeReadable(p: Part) {
    && Lacks(p.name, TYPE_KEY) && Lacks(p.filename, TYPE_KEY)
    && (p.contentType == "" ==> Lacks(p.name, TYPE_KEY_LOWER) && Lacks(p.filename, TYPE_KEY_LOWER))
  }

  ghost predicate Printable(p: Part, delim: string) {
    Writable(p) && FileReadable(p) && TypeReadable(p) && Lacks(p.data, delim)
  }

  // Characters of the fixed texts

  lemma HeadQuotes()
    ensures |HEAD| == 38 && HEAD[37] == QUOTE && HEAD[32..] == NAME_KEY
    ensures forall x :: 0 <= x < 37 ==> HEAD[x] != QUOTE
  {}

  lemma HeadOthers()
    ensures |HEAD| == 38 && HEAD[28] == 't' && HEAD[7] == '-'
    ensures forall x :: 0 <= x < 37 && HEAD[x] == ':' ==> x == 19
    ensures '\r' !in HEAD
  {}

  lemma FileMarkChars()
    ensures |FILE_MARK| == 13 && FILE_MARK[0] == QUOTE && FILE_MARK[12] == QUOTE && FILE_MARK[3..] == FILE_KEY
    ensures forall x :: 0 < x < 12 ==> FILE_MARK[x] != QUOTE
    ensures '\r' !in FILE_MARK
  {}

  lemma TypeMarkChars()
    ensures |TYPE_MARK| == 16 && TYPE_MARK[2..] == TYPE_KEY && TYPE_MARK[2] == 'C' && TYPE_MARK[0] == '\r'
    ensures forall x :: 0 <= x < 14 ==> TYPE_MARK[x] != ':'
    ensures forall x :: 0 < x < 16 ==> TYPE_MARK[x] != '\r'
    ensures QUOTE !in TYPE_MARK
  {}

  lemma KeyChars()
    ensures |NAME_KEY| == 6 && NAME_KEY[5] == QUOTE
    ensures |FILE_KEY| == 10 && FILE_KEY[9] == QUOTE && FILE_KEY[0] == 'f' && FILE_KEY[..9] == LURE && QUOTE !in LURE
    ensures |TYPE_KEY| == 14 && TYPE_KEY[12] == ':' && TYPE_KEY[0] == 'C' && QUOTE !in TYPE_KEY
    ensures |TYPE_KEY_LOWER| == 14 && TYPE_KEY_LOWER[12] == ':' && TYPE_KEY_LOWER[0] == 'c' && QUOTE !in TYPE_KEY_LOWER
  {}

  /** A character that differs rules an occurrence out. */
  lemma Mismatch(s: string, pat: string, j: nat, k: nat)
    requires k < |pat| && (j + k < |s| ==> s[j + k] != pat[k])
    ensures !Occurs(s, pat, j)
  {}

  lemma Difference(s: string, t: string) returns (x: nat)
    requires |s| == |t| && s != t
    ensures x < |s| && s[x] != t[x]
  {
    x :| 0 <= x < |s| && s[x] != t[x];
  }

  lemma Quoted(s: string, key: string, p: nat, q: nat)
    requires key != "" && p < |s| && Find(s, key, 0) == p
    requires p + |key| <= q < |s| && s[q] == QUOTE && forall j :: p + |key| <= j < q ==> s[j] != QUOTE
    ensures QuotedAfter(s, key) == s[p + |key|..q]
  {
    hide Find, Occurs;
    IndexOfIs(s, QUOTE, p + |key|, q);
  }

  lemma FindIs(s: string, pat: string, r: nat)
    requires pat != "" && Occurs(s, pat, r) && forall j :: 0 <= j < r ==> !Occurs(s, pat, j)
    ensures Find(s, pat, 0) == r
  {}

  /** A disposition line up to the quote that closes the name, and whatever follows. */
  function Named(name: string, u: string): string {
    HEAD + (name + u)
  }

  /** Where the characters of such a line come from. */
  lemma NamedChars(name: string, u: string)
    requires QUOTE !in name
    ensures |Named(name, u)| == 38 + |name| + |u| && Named(name, u)[28] == 't' && Named(name, u)[37] == QUOTE
    ensures forall x :: 0 <= x < 38 + |name| && x != 37 ==> Named(name, u)[x] != QUOTE
    ensures forall x :: 0 <= x < |name| ==> Named(name, u)[38 + x] == name[x]
    ensures forall x :: 0 <= x < |u| ==> Named(name, u)[38 + |name| + x] == u[x]
    ensures Named(name, u)[32..38] == NAME_KEY && Named(name, u)[38..38 + |name|] == name
    ensures Named(name, u)[38 + |name|..] == u
  {
    HeadQuotes();
    HeadOthers();
    hide HEAD;
    Halves(HEAD, name + u);
    Halves(name, u);
    var s, t := Named(name, u), name + u;
    assert forall x :: 0 <= x < 38 ==> s[x] == HEAD[x];
    assert forall x :: 38 <= x < |s| ==> s[x] == t[x - 38];
    assert forall x :: 0 <= x < |name| ==> t[x] == name[x] && name[x] in name;
  }

  /** The name is found behind the first `name="`. */
  lemma NameFound(name: string, u: string)
    requires QUOTE !in name && u != "" && u[0] == QUOTE
    ensures QuotedAfter(Named(name, u), NAME_KEY) == name
  {
    hide Named, QuotedAfter;
    var s := Named(name, u);
    NamedChars(name, u);
    KeyChars();
    forall j: nat | j < 32 ensures !Occurs(s, NAME_KEY, j) {
      Mismatch(s, NAME_KEY, j, 5);
    }
    FindIs(s, NAME_KEY, 32);
    assert s[38 + |name|] == u[0];
    Quoted(s, NAME_KEY, 32, 38 + |name|);
  }

  /** Up to the quote that closes the name there is no `filename="`, unless the name itself looks like one. */
  lemma NoFileKey(name: string, u: string, j: nat)
    requires QUOTE !in name && name != "" && j + 9 <= 38 + |name|
    requires j + 9 == 38 + |name| ==> !EndsIn(name, LURE)
    ensures !Occurs(Named(name, u), FILE_KEY, j)
  {
    hide Named;
    var s := Named(name, u);
    NamedChars(name, u);
    KeyChars();
    if j + 9 == 37 {
      Mismatch(s, FILE_KEY, j, 0);
    } else if j + 9 < 38 + |name| {
      Mismatch(s, FILE_KEY, j, 9);
    } else if |name| < 9 {
      assert FILE_KEY[37 - j] == LURE[37 - j] && LURE[37 - j] in LURE;
      Mismatch(s, FILE_KEY, j, 37 - j);
    } else {
      assert s[j..j + 9] == s[38..38 + |name|][|name| - 9..] == name[|name| - 9..] != LURE;
      var x := Difference(s[j..j + 9], LURE);
      assert FILE_KEY[x] == FILE_KEY[..9][x];
      Mismatch(s, FILE_KEY, j, x);
    }
  }

  /** What follows the name of a file part. */
  function FileTail(filename: string, r: string): string {
    FILE_MARK + (filename + (['"'] + r))
  }

  lemma FileTailChars(filename: string, r: string)
    requires QUOTE !in filename
    ensures |FileTail(filename, r)| > 13 + |filename|
    ensures FileTail(filename, r)[0] == QUOTE == FileTail(filename, r)[12]
    ensures forall x :: 0 < x < 12 ==> FileTail(filename, r)[x] != QUOTE
    ensures forall x :: 13 <= x < 13 + |filename| ==> FileTail(filename, r)[x] != QUOTE
    ensures FileTail(filename, r)[13 + |filename|] == QUOTE
    ensures FileTail(filename, r)[3..13] == FILE_KEY && FileTail(filename, r)[13..13 + |filename|] == filename
    ensures FileTail(filename, r)[1..12] == "; filename="
  {
    FileMarkChars();
    var q := ['"'] + r;
    var t := filename + q;
    var u := FileTail(filename, r);
    assert FILE_MARK[1..12] == "; filename=";
    hide FILE_MARK;
    Halves(FILE_MARK, t);
    Halves(filename, q);
    assert u[3..13] == FILE_MARK[3..] && u[1..12] == FILE_MARK[1..12];
    assert u[13..13 + |filename|] == t[..|filename|];
    assert forall x :: 0 <= x < 13 ==> u[x] == FILE_MARK[x];
    assert forall x :: 13 <= x < |u| ==> u[x] == t[x - 13];
    assert forall x :: 0 <= x < |filename| ==> t[x] == filename[x] && filename[x] in filename;
    assert t[|filename|] == q[0];
  }

  lemma Within(s: string, u: string, b: nat, i: nat, j: nat)
    requires b <= |s| && s[b..] == u && i <= j <= |u|
    ensures s[b + i..b + j] == u[i..j]
  {
    assert forall x :: i <= x < j ==> s[b + x] == u[x];
    assert s[b + i..b + j] == s[b..][i..j];
  }

  /** Where the key of the file name and its value stand. */
  lemma FilePlaces(name: string, filename: string, r: string)
    requires QUOTE !in name && QUOTE !in filename
    ensures var s, b := Named(name, FileTail(filename, r)), 38 + |name|;
            && |s| > b + 13 + |filename| && s[b] == QUOTE
            && s[b + 3..b + 13] == FILE_KEY && s[b + 13..b + 13 + |filename|] == filename
            && s[b + 13 + |filename|] == QUOTE
            && (forall x :: b < x < b + 12 || b + 13 <= x < b + 13 + |filename| ==> s[x] != QUOTE)
  {
    hide Named, FileTail;
    var u := FileTail(filename, r);
    var s, b := Named(name, u), 38 + |name|;
    FileTailChars(filename, r);
    NamedChars(name, u);
    Within(s, u, b, 3, 13);
    Within(s, u, b, 13, 13 + |filename|);
    assert forall x :: b <= x < b + |u| ==> s[x] == u[x - b];
  }

  /** The file name is found, unless the name ends in something that looks like its key. */
  lemma FileFound(name: string, filename: string, r: string)
    requires QUOTE !in name && name != "" && QUOTE !in filename && !EndsIn(name, LURE)
    ensures QuotedAfter(Named(name, FileTail(filename, r)), FILE_KEY) == filename
  {
    hide Named, FileTail, QuotedAfter, EndsIn, Occurs;
    var s, b := Named(name, FileTail(filename, r)), 38 + |name|;
    FilePlaces(name, filename, r);
    KeyChars();
    forall j: nat | j < b + 3 ensures !Occurs(s, FILE_KEY, j) {
      if j + 9 <= b {
        NoFileKey(name, FileTail(filename, r), j);
      } else {
        Mismatch(s, FILE_KEY, j, 9);
      }
    }
    FoundAt(s, FILE_KEY, b + 3, filename);
  }

  /** The first occurrence of a key with a quoted value behind it. */
  lemma FoundAt(s: string, key: string, k: nat, value: string)
    requires key != "" && k + |key| + |value| < |s| && s[k..k + |key|] == key
    requires forall j: nat :: j < k ==> !Occurs(s, key, j)
    requires s[k + |key|..k + |key| + |value|] == value && s[k + |key| + |value|] == QUOTE
    requires forall x :: k + |key| <= x < k + |key| + |value| ==> s[x] != QUOTE
    ensures QuotedAfter(s, key) == value
  {
    assert Occurs(s, key, k);
    hide Occurs, QuotedAfter;
    FindIs(s, key, k);
    Quoted(s, key, k, k + |key| + |value|);
  }

  /** With a name that ends like the key, a wrong file name is read. */
  lemma LuredFileName(name: string, filename: string, r: string)
    requires QUOTE !in name && QUOTE !in filename && EndsIn(name, LURE)
    ensures QuotedAfter(Named(name, FileTail(filename, r)), FILE_KEY) == LURED
  {
    hide Named, FileTail, QuotedAfter;
    var u := FileTail(filename, r);
    var s := Named(name, u);
    FileTailChars(filename, r);
    NamedChars(name, u);
    KeyChars();
    var b := 38 + |name|;
    forall j: nat | j < b - 9 ensures !Occurs(s, FILE_KEY, j) {
      NoFileKey(name, u, j);
    }
    assert s[b - 9..b] == s[38..b][|name| - 9..] == LURE;
    assert s[b] == u[0];
    assert s[b - 9..b + 1] == s[b - 9..b] + [s[b]] == FILE_KEY;
    FindIs(s, FILE_KEY, b - 9);
    Within(s, u, b, 1, 12);
    assert s[b + 12] == u[12];
    assert forall j :: b < j < b + 12 ==> s[j] == u[j - b];
    Quoted(s, FILE_KEY, b - 9, b + 12);
  }

  /** Exactly when the file name of a printed part is read back. */
  lemma FileFoundExactly(name: string, filename: string, r: string)
    requires QUOTE !in name && name != "" && QUOTE !in filename
    ensures QuotedAfter(Named(name, FileTail(filename, r)), FILE_KEY) == filename
       <==> !EndsIn(name, LURE) || filename == LURED
  {
    hide QuotedAfter, Named, FileTail, EndsIn;
    if EndsIn(name, LURE) {
      LuredFileName(name, filename, r);
    } else {
      FileFound(name, filename, r);
    }
  }

  /** Without a file name nothing is taken for one, even when the name ends like its key. */
  lemma NoFileFound(name: string, r: string)
    requires QUOTE !in name && name != "" && QUOTE !in r
    ensures QuotedAfter(Named(name, ['"'] + r), FILE_KEY) == ""
  {
    hide Named, Occurs, QuotedAfter, EndsIn;
    var u := ['"'] + r;
    var s, b := Named(name, u), 38 + |name|;
    NamedChars(name, u);
    KeyChars();
    forall x | b < x < |s| ensures s[x] != QUOTE {
      assert s[x] == u[x - b] == r[x - b - 1] && r[x - b - 1] in r;
    }
    forall j: nat | j + 9 < b ensures !Occurs(s, FILE_KEY, j) {
      NoFileKey(name, u, j);
    }
    NoneQuoted(s, FILE_KEY, b);
  }

  /** A key that can only end at or behind the last quote is not followed by a quoted value. */
  lemma NoneQuoted(s: string, key: string, last: nat)
    requires key != "" && forall x :: last < x < |s| ==> s[x] != QUOTE
    requires forall j: nat :: j + |key| <= last ==> !Occurs(s, key, j)
    ensures QuotedAfter(s, key) == ""
  {
    hide IndexOf;
    var p := Find(s, key, 0);
    assert p < |s| ==> p + |key| > last;
  }

  // The content type

  /** What contains no quote cannot reach across one. */
  lemma QuoteSeparates(a: string, b: string, key: string)
    requires QUOTE !in key
    ensures Lacks(a + (['"'] + b), key) <==> Lacks(a, key) && Lacks(b, key)
  {
    hide Occurs;
    var s := a + (['"'] + b);
    forall j: nat ensures j + |key| <= |a| ==> (Occurs(s, key, j) <==> Occurs(a, key, j)) {
      if j + |key| <= |a| {
        SameText(s, 0, a, key, j);
      }
    }
    forall j: nat ensures j > |a| ==> (Occurs(s, key, j) <==> Occurs(b, key, j - |a| - 1)) {
      if j > |a| {
        SameText(s, |a| + 1, b, key, j - |a| - 1);
      }
    }
    forall j: nat | j <= |a| < j + |key| ensures !Occurs(s, key, j) {
      assert s[|a|] == QUOTE && key[|a| - j] in key;
      Mismatch(s, key, j, |a| - j);
    }
    AtPlaces(s, a, b, key);
  }

  lemma AtPlaces(s: string, a: string, b: string, key: string)
    requires |s| == |a| + 1 + |b|
    requires forall j: nat :: j + |key| <= |a| ==> (Occurs(s, key, j) <==> Occurs(a, key, j))
    requires forall j: nat :: j > |a| ==> (Occurs(s, key, j) <==> Occurs(b, key, j - |a| - 1))
    requires forall j: nat :: j <= |a| < j + |key| ==> !Occurs(s, key, j)
    ensures Lacks(s, key) <==> Lacks(a, key) && Lacks(b, key)
  {
    assert forall j: nat :: Occurs(a, key, j) ==> j + |key| <= |a|;
    hide Occurs;
    forall j: nat ensures Occurs(b, key, j) ==> Occurs(s, key, j + |a| + 1) {
      assert Occurs(s, key, j + |a| + 1) <==> Occurs(b, key, j + |a| + 1 - |a| - 1);
    }
  }

  /** An occurrence depends on the text at its place only. */
  lemma SameText(s: string, at: nat, a: string, key: string, j: nat)
    requires at + |a| <= |s| && s[at..at + |a|] == a && (j + |key| <= |a| || at + |a| == |s|)
    ensures Occurs(s, key, at + j) <==> Occurs(a, key, j)
  {
    if j + |key| <= |a| {
      assert forall x :: j <= x < j + |key| ==> s[at + x] == a[x];
      assert s[at + j..at + j + |key|] == a[j..j + |key|];
    }
  }

  predicate IsTypeKey(key: string) {
    key == TYPE_KEY || key == TYPE_KEY_LOWER
  }

  lemma FixedTextsLack(key: string)
    requires IsTypeKey(key)
    ensures QUOTE !in key && Lacks("", key) && Lacks(HEAD[..37], key) && Lacks(FILE_MARK[1..12], key)
  {
    KeyChars();
    HeadOthers();
    var head := HEAD[..37];
    forall j: nat ensures !Occurs(head, key, j) {
      Mismatch(head, key, j, if j == 7 then 0 else 12);
    }
  }

  /** The disposition line looks like a content type header only where the name or the file name does. */
  lemma DispositionLacks(p: Part, key: string)
    requires IsTypeKey(key)
    ensures Lacks(Disposition(p), key) <==> Lacks(p.name, key) && Lacks(p.filename, key)
  {
    FileTextLacks(p.filename, key);
    hide Lacks, FileText, IsTypeKey;
    var q: string, t := ['"'], FileText(p.filename);
    var v := t[1..];
    FixedTextsLack(key);
    HeadQuotes();
    QuoteSeparates(p.name, v, key);
    QuoteSeparates(HEAD[..37], p.name + t, key);
    assert t == q + v && HEAD == HEAD[..37] + q;
    Regroup(HEAD[..37], q, p.name + t);
  }

  lemma FileTextLacks(filename: string, key: string)
    requires IsTypeKey(key)
    ensures FileText(filename) != "" && FileText(filename)[0] == QUOTE
    ensures Lacks(FileText(filename)[1..], key) <==> Lacks(filename, key)
  {
    hide Lacks, IsTypeKey;
    FixedTextsLack(key);
    if filename == "" {
      assert FileText(filename)[1..] == "";
    } else {
      FileMarkChars();
      var q: string := ['"'];
      var mid := FILE_MARK[1..12];
      QuoteSeparates(filename, "", key);
      QuoteSeparates(mid, filename + q, key);
      assert q + "" == q && FILE_MARK == q + (mid + q);
      Regroup(q, mid + q, filename + q);
      Regroup(mid, q, filename + q);
      assert FileText(filename)[1..] == mid + (q + (filename + q));
    }
  }

  /** A line that ends in a quote and has no line break in it. */
  predicate Line(s: string) {
    s != "" && s[|s| - 1] == QUOTE && '\r' !in s
  }

  lemma DispositionLine(p: Part)
    requires Quotable(p.name) && Quotable(p.filename)
    ensures Line(Disposition(p))
  {
    HeadOthers();
    FileMarkChars();
    var t := FileText(p.filename);
    assert '\r' !in t && t[|t| - 1] == QUOTE;
    assert '\r' !in p.name + t;
  }

  lemma NoTypeBefore(s: string, u: string, j: nat)
    requires Line(s) && Lacks(s, TYPE_KEY) && j < |s|
    ensures !Occurs(s + u, TYPE_KEY, j)
  {
    KeyChars();
    var t := s + u;
    if j + 14 <= |s| {
      SameText(t, 0, s, TYPE_KEY, j);
    } else {
      assert t[|s| - 1] == QUOTE && TYPE_KEY[|s| - 1 - j] in TYPE_KEY;
      Mismatch(t, TYPE_KEY, j, |s| - 1 - j);
    }
  }

  /** Where a printed content type stands behind the line `s`. */
  lemma TypePlaces(s: string, contentType: string)
    ensures var t, e := s + (TYPE_MARK + contentType), |s| + 2;
            && |t| == e + 14 + |contentType| && Occurs(t, TYPE_KEY, e) && t[e + 14..] == contentType
            && (forall x :: |s| <= x < e + 12 ==> t[x] != ':')
  {
    var u := TYPE_MARK + contentType;
    var t := s + u;
    TypeMarkChars();
    KeyChars();
    hide TYPE_MARK;
    Halves(s, u);
    Halves(TYPE_MARK, contentType);
    Within(t, u, |s|, 2, 16);
    assert u[2..16] == TYPE_MARK[2..];
    assert forall x :: |s| <= x < |s| + 16 ==> t[x] == u[x - |s|] == TYPE_MARK[x - |s|];
  }

  lemma TypeFound(s: string, contentType: string)
    requires Line(s) && Lacks(s, TYPE_KEY) && '\r' !in contentType
    ensures TypeOf(s + (TYPE_MARK + contentType)) == contentType
  {
    hide Line, Lacks, Occurs, TYPE_MARK;
    var u, e := TYPE_MARK + contentType, |s| + 2;
    var t := s + u;
    KeyChars();
    TypePlaces(s, contentType);
    forall j: nat | j < e ensures !Occurs(t, TYPE_KEY, j) {
      if j < |s| {
        NoTypeBefore(s, u, j);
      } else {
        Mismatch(t, TYPE_KEY, j, 12);
      }
    }
    FindIs(t, TYPE_KEY, e);
    forall j | e + 14 <= j < |t| ensures t[j] != '\r' {
      assert t[j] == contentType[j - e - 14] && contentType[j - e - 14] in contentType;
    }
  }

  lemma NoTypeFound(s: string)
    requires Lacks(s, TYPE_KEY) && Lacks(s, TYPE_KEY_LOWER)
    ensures TypeOf(s) == ""
  {}

  /** A key found inside the line makes the rest of the line the content type, up to its last quote. */
  lemma RestOfLine(s: string, t: string, key: string, q: nat)
    requires Line(s) && IsTypeKey(key) && !Lacks(s, key) && q == Find(s + t, key, 0)
    requires t == "" || CrlfAt(t, 0)
    ensures q + 14 < |s| && FindCrlf(s + t, q + 14) == |s|
  {
    KeyPlace(s, t, key);
    hide Line, IsTypeKey, Lacks, Occurs, CrlfAt;
    LineEnds(s, t, q + 14);
  }

  lemma KeyPlace(s: string, t: string, key: string)
    requires Line(s) && IsTypeKey(key) && !Lacks(s, key)
    ensures Find(s + t, key, 0) + 14 < |s|
  {
    KeyChars();
    var j: nat :| Occurs(s, key, j);
    SameText(s + t, 0, s, key, j);
    assert s[j + 13] == key[13] && key[13] in key;
    hide Occurs, Find;
  }

  lemma LineEnds(s: string, t: string, from: nat)
    requires Line(s) && from <= |s| && (t == "" || CrlfAt(t, 0))
    ensures FindCrlf(s + t, from) == |s|
  {
    var v := s + t;
    assert forall x :: 0 <= x < |s| ==> v[x] == s[x] && s[x] in s;
    if t != "" {
      assert v[|s|] == t[0] && v[|s| + 1] == t[1];
      assert CrlfAt(v, |s|);
    }
  }

  lemma TypeWrong(s: string, t: string)
    requires Line(s) && (t == "" || CrlfAt(t, 0))
    requires !Lacks(s, TYPE_KEY) || (t == "" && !Lacks(s, TYPE_KEY_LOWER))
    ensures QUOTE in TypeOf(s + t)
  {
    hide Find, FindCrlf, Lacks, Occurs;
    var v := s + t;
    var p := Find(v, TYPE_KEY, 0);
    if !Lacks(s, TYPE_KEY) {
      RestOfLine(s, t, TYPE_KEY, p);
      LastOf(v, p + 14, |s|);
    } else if p < |v| {
      assert v == s;
      KeyInLine(s, p);
    } else {
      var q := Find(v, TYPE_KEY_LOWER, 0);
      RestOfLine(s, t, TYPE_KEY_LOWER, q);
      LastOf(v, q + 14, |s|);
    }
  }

  lemma KeyInLine(s: string, p: nat)
    requires p == Find(s, TYPE_KEY, 0) && Lacks(s, TYPE_KEY)
    ensures p == |s|
  {}

  lemma LastOf(v: string, i: nat, j: nat)
    requires i < j <= |v| && v[j - 1] == QUOTE
    ensures QUOTE in v[i..j]
  {
    assert v[i..j][j - 1 - i] == v[j - 1];
  }

  // One part

  /** The disposition line in the shape of the lemmas above; `r` is what follows it. */
  lemma DispositionShape(p: Part, r: string)
    ensures p.filename == "" ==> Disposition(p) + r == Named(p.name, ['"'] + r)
    ensures p.filename != "" ==> Disposition(p) + r == Named(p.name, FileTail(p.filename, r))
  {
    var q: string := ['"'];
    var t := FileText(p.filename);
    Regroup(HEAD, p.name + t, r);
    Regroup(p.name, t, r);
    if p.filename != "" {
      Regroup(FILE_MARK, p.filename + q, r);
      Regroup(p.filename, q, r);
    }
  }

  /** Exactly when the content type of a part is read back. */
  lemma TypeFoundExactly(p: Part)
    requires Writable(p)
    ensures TypeOf(HeadersText(p)) == p.contentType <==> TypeReadable(p)
  {
    var d, t := Disposition(p), TypeText(p.contentType);
    DispositionLine(p);
    DispositionLacks(p, TYPE_KEY);
    DispositionLacks(p, TYPE_KEY_LOWER);
    TypeTextIs(p.contentType);
    hide Disposition, TypeOf, Lacks, TypeText, Line;
    if Lacks(d, TYPE_KEY) && (p.contentType == "" ==> Lacks(d, TYPE_KEY_LOWER)) {
      if p.contentType == "" {
        NoTypeFound(d);
        assert d + "" == d;
      } else {
        TypeFound(d, p.contentType);
      }
    } else {
      TypeWrong(d, t);
    }
  }

  lemma TypeTextIs(contentType: string)
    ensures contentType == "" ==> TypeText(contentType) == ""
    ensures contentType != "" ==>
              TypeText(contentType) == TYPE_MARK + contentType && CrlfAt(TypeText(contentType), 0)
  {}

  /** Exactly when all three values of a part are read as they were meant. */
  lemma HeadersReadExactly(p: Part)
    requires Writable(p)
    ensures var h := HeadersText(p);
            QuotedAfter(h, NAME_KEY) == p.name && QuotedAfter(h, FILE_KEY) == p.filename && TypeOf(h) == p.contentType
            <==> FileReadable(p) && TypeReadable(p)
  {
    var r := TypeText(p.contentType);
    DispositionShape(p, r);
    TypeMarkChars();
    assert QUOTE !in r;
    TypeFoundExactly(p);
    hide Disposition, QuotedAfter, TypeOf, TypeText, TypeReadable, Occurs, Named, FileTail, EndsIn;
    if p.filename == "" {
      NameFound(p.name, ['"'] + r);
      NoFileFound(p.name, r);
    } else {
      FileTailChars(p.filename, r);
      NameFound(p.name, FileTail(p.filename, r));
      FileFoundExactly(p.name, p.filename, r);
    }
  }

  /** The headers of a printed part are read as they were meant. */
  lemma HeadersRead(p: Part, delim: string)
    requires Printable(p, delim)
    ensures var h := HeadersText(p);
            && QuotedAfter(h, NAME_KEY) == p.name && QuotedAfter(h, FILE_KEY) == p.filename
            && TypeOf(h) == p.contentType
  {
    hide FileReadable, TypeReadable, Writable, HeadersText, QuotedAfter, TypeOf;
    HeadersReadExactly(p);
  }

  /** The blank line behind the headers is the first one. */
  lemma HeadersEnd(p: Part, delim: string, rest: string)
    requires Printable(p, delim)
    ensures FindTerm(HeadersText(p) + ("\r\n\r\n" + rest), 0) == |HeadersText(p)|
  {
    var d, r := Disposition(p), TypeText(p.contentType);
    var h, t := d + r, "\r\n\r\n" + rest;
    var s := h + t;
    DispositionLine(p);
    TypeMarkChars();
    hide Disposition;
    assert s[|h|..] == t;
    assert TermAt(s, |h|);
    forall j: nat | j < |h| ensures !TermAt(s, j) {
      if j < |d| {
        assert s[j] == d[j] && d[j] in d;
      } else {
        assert s[j] == r[j - |d|];
        if j == |d| {
          assert s[j + 2] == r[2] == TYPE_MARK[2];
        } else if j - |d| < 16 {
          assert r[j - |d|] == TYPE_MARK[j - |d|];
        } else {
          assert r[j - |d|] == p.contentType[j - |d| - 16] && p.contentType[j - |d| - 16] in p.contentType;
        }
      }
    }
  }

  /** The delimiter behind a part's content is found right behind its line break. */
  lemma ContentEnds(data: string, boundary: string, rest: string)
    requires '\r' !in boundary && Lacks(data, "--" + boundary)
    ensures var delim := "--" + boundary;
            var v := data + ("\r\n" + (delim + rest));
            && Find(v, delim, 0) == |data| + 2 && v[|data| + 2 + |delim|..] == rest
            && ContentBefore(v, |data| + 2) == data
  {
    var delim := "--" + boundary;
    var u := delim + rest;
    var w := "\r\n" + u;
    var v := data + w;
    var e := |data| + 2;
    Halves(data, w);
    Halves(delim, rest);
    assert '\r' !in delim;
    assert v[|data|..] == w && v[e..] == u;
    assert v[e..e + |delim|] == u[..|delim|] && v[e + |delim|..] == u[|delim|..];
    forall j: nat | j < e ensures !Occurs(v, delim, j) {
      if j + |delim| <= |data| {
        assert v[j..j + |delim|] == data[j..j + |delim|];
        assert !Occurs(data, delim, j);
      } else if j <= |data| {
        assert v[|data|] == w[0] == '\r' && delim[|data| - j] in delim;
        Mismatch(v, delim, j, |data| - j);
      } else {
        assert v[e - 1] == w[1] == '\n';
        Mismatch(v, delim, j, 0);
      }
    }
    FindIs(v, delim, e);
    assert v[|data|] == w[0] && v[|data| + 1] == w[1];
    assert CrlfAt(v, |data|);
  }

  lemma BehindBreak(u: string, delim: string)
    requires delim != ""
    ensures NextPart("\r\n" + u, delim) == PartAt(u, delim)
  {
    hide PartAt;
    var t := "\r\n" + u;
    assert t[0] == '\r' && t[2..] == u;
  }

  lemma BehindHeaders(headers: string, v: string, delim: string)
    requires delim != "" && FindTerm(headers + ("\r\n\r\n" + v), 0) == |headers|
    ensures PartAt(headers + ("\r\n\r\n" + v), delim) == ClosedPart(headers, v, delim)
  {
    hide PartAt, ClosedPart, FindTerm;
    var u := headers + ("\r\n\r\n" + v);
    PartAtIs(u, delim);
    assert u[..|headers|] == headers && u[|headers| + 4..] == v;
  }

  lemma BeforeDelimiter(headers: string, v: string, delim: string, data: string, rest: string)
    requires delim != "" && |data| + 2 < |v| && Find(v, delim, 0) == |data| + 2
    requires v[|data| + 2 + |delim|..] == rest && ContentBefore(v, |data| + 2) == data
    ensures ClosedPart(headers, v, delim) == Some(RawPart(headers, data, rest))
  {
    hide Find, ContentBefore;
  }

  /** A printed part is the next one, with the headers and the data it was printed with. */
  lemma FirstPart(p: Part, boundary: string, rest: string)
    requires '\r' !in boundary && Printable(p, "--" + boundary)
    ensures var delim := "--" + boundary;
            var t := "\r\n" + (HeadersText(p) + ("\r\n\r\n" + (p.data + ("\r\n" + (delim + rest)))));
            NextPart(t, delim) == Some(RawPart(HeadersText(p), p.data, rest))
  {
    hide NextPart, PartAt, ClosedPart, HeadersText, Printable, Find, FindTerm, ContentBefore, TermAt, CrlfAt, Occurs;
    var delim := "--" + boundary;
    NoDelimiter(p, delim);
    var v := p.data + ("\r\n" + (delim + rest));
    HeadersEnd(p, delim, v);
    ContentEnds(p.data, boundary, rest);
    BehindBreak(HeadersText(p) + ("\r\n\r\n" + v), delim);
    BehindHeaders(HeadersText(p), v, delim);
    BeforeDelimiter(HeadersText(p), v, delim, p.data, rest);
  }

  /** Every printed list of parts is read back as it was meant, whatever follows the last delimiter. */
  lemma {:induction false} PartsRoundTrip(parts: seq<Part>, boundary: string, epilogue: string, form: Form)
    requires '\r' !in boundary && forall p :: p in parts ==> Printable(p, "--" + boundary)
    ensures PartsFrom(Rest(parts, "--" + boundary, epilogue), "--" + boundary, form) == Meant(form, parts)
    decreases |parts|
  {
    hide NextPart, HeadersText, StoredPart, Printable, QuotedAfter, TypeOf, Stored;
    var delim := "--" + boundary;
    if parts == [] {
      NoPart(delim, epilogue);
    } else {
      var p, rest := parts[0], Rest(parts[1..], delim, epilogue);
      assert p in parts && forall q :: q in parts[1..] ==> q in parts;
      FirstPart(p, boundary, rest);
      HeadersRead(p, delim);
      StoredIs(form, HeadersText(p), p.data);
      PartsRoundTrip(parts[1..], boundary, epilogue, Stored(form, p.name, p.filename, p.contentType, p.data));
    }
  }

  lemma NoPart(delim: string, epilogue: string)
    requires delim != ""
    ensures NextPart("--" + epilogue, delim) == None
  {}

  lemma NoDelimiter(p: Part, delim: string)
    requires Printable(p, delim)
    ensures Lacks(p.data, delim)
  {}

  /** A printed form is parsed into exactly the fields and files it was printed from. */
  lemma FormRoundTrip(parts: seq<Part>, boundary: string, epilogue: string)
    requires '\r' !in boundary && forall p :: p in parts ==> Printable(p, "--" + boundary)
    ensures Parsed(FormText(parts, boundary, epilogue), boundary) == Meant(EMPTY, parts)
  {
    var delim := "--" + boundary;
    var rest := Rest(parts, delim, epilogue);
    hide Rest, PartsFrom;
    Halves(delim, rest);
    FindIs(delim + rest, delim, 0);
    PartsRoundTrip(parts, boundary, epilogue, EMPTY);
  }

  /**
   A part whose delimiter stands directly behind its blank line is not empty: it gets that delimiter and all
   that follows it. A part that is printed empty has a line break there.
   */
  lemma NoLineBreakTakesRest(p: Part, boundary: string, epilogue: string)
    requires '\r' !in boundary && Printable(p, "--" + boundary)
    ensures var delim := "--" + boundary;
            var v := delim + ("--" + epilogue);
            Parsed(delim + ("\r\n" + (HeadersText(p) + ("\r\n\r\n" + v))), boundary)
            == Stored(EMPTY, p.name, p.filename, p.contentType, v)
  {
    hide NextPart, PartAt, ClosedPart, HeadersText, Printable, Find, FindTerm, ContentBefore, TermAt, CrlfAt, Occurs,
         StoredPart, QuotedAfter, TypeOf, Stored;
    var delim := "--" + boundary;
    var t := "--" + epilogue;
    var v := delim + t;
    var u := HeadersText(p) + ("\r\n\r\n" + v);
    HeadersEnd(p, delim, v);
    BehindBreak(u, delim);
    BehindHeaders(HeadersText(p), v, delim);
    AtOnce(HeadersText(p), v, delim, t);
    HeadersRead(p, delim);
    StoredIs(EMPTY, HeadersText(p), v);
    NoPart(delim, epilogue);
    FirstDelimiter("\r\n" + u, boundary);
    TwoParts("\r\n" + u, delim, HeadersText(p), v, t);
  }

  lemma TwoParts(s: string, delim: string, headers: string, content: string, rest: string)
    requires delim != "" && NextPart(s, delim) == Some(RawPart(headers, content, rest)) && NextPart(rest, delim) == None
    ensures PartsFrom(s, delim, EMPTY) == StoredPart(EMPTY, headers, content)
  {
    hide NextPart, StoredPart;
  }

  lemma FirstDelimiter(t: string, boundary: string)
    ensures Parsed("--" + boundary + t, boundary) == PartsFrom(t, "--" + boundary, EMPTY)
  {
    hide PartsFrom;
    var delim := "--" + boundary;
    Halves(delim, t);
    FindIs(delim + t, delim, 0);
  }

  lemma AtOnce(headers: string, v: string, delim: string, rest: string)
    requires delim != "" && v == delim + rest
    ensures ClosedPart(headers, v, delim) == Some(RawPart(headers, v, rest))
  {
    Halves(delim, rest);
    FindIs(v, delim, 0);
    hide Find;
    assert v[0 + |delim|..] == rest;
  }

  /** The value a form holds for a part. */
  predicate Holds(form: Form, p: Part) {
    if p.filename == "" then p.name in form.fields && form.fields[p.name] == p.data
    else
      && p.name in form.files
      && form.files[p.name].filename == p.filename && form.files[p.name].data == p.data
      && form.files[p.name].contentType == if p.contentType == "" then "application/octet-stream" else p.contentType
  }

  lemma {:induction false} MeantKeeps(form: Form, parts: seq<Part>, p: Part)
    requires p.name != "" && Holds(form, p)
    requires forall q :: q in parts ==> q.name != p.name || (q.filename == "") != (p.filename == "")
    ensures Holds(Meant(form, parts), p)
    decreases |parts|
  {
    if parts != [] {
      var q := parts[0];
      assert q in parts && forall r :: r in parts[1..] ==> r in parts;
      MeantKeeps(Stored(form, q.name, q.filename, q.contentType, q.data), parts[1..], p);
    }
  }

  /** Text parts and nothing else are fields, file parts and nothing else are files. */
  lemma {:induction false} MeantKeys(form: Form, parts: seq<Part>)
    requires forall p :: p in parts ==> p.name != ""
    ensures Meant(form, parts).fields.Keys == form.fields.Keys + set p | p in parts && p.filename == "" :: p.name
    ensures Meant(form, parts).files.Keys == form.files.Keys + set p | p in parts && p.filename != "" :: p.name
    decreases |parts|
  {
    if parts != [] {
      var q, rest := parts[0], parts[1..];
      assert q in parts && forall p :: p in parts <==> p == q || p in rest;
      MeantKeys(Stored(form, q.name, q.filename, q.contentType, q.data), rest);
    }
  }

  /** The names of the fields and of the files of a parsed form. */
  lemma FormKeys(parts: seq<Part>, boundary: string, epilogue: string)
    requires '\r' !in boundary && forall p :: p in parts ==> Printable(p, "--" + boundary)
    ensures var form := Parsed(FormText(parts, boundary, epilogue), boundary);
            && form.fields.Keys == (set p | p in parts && p.filename == "" :: p.name)
            && form.files.Keys == (set p | p in parts && p.filename != "" :: p.name)
  {
    assert forall p :: p in parts ==> p.name != "";
    hide Parsed, FormText, Printable, Meant;
    FormRoundTrip(parts, boundary, epilogue);
    MeantKeys(EMPTY, parts);
  }

  /** A part without a name is left out, and the parts behind it are not. */
  lemma NamelessSkipped(t: string, delim: string, form: Form, headers: string, content: string, rest: string)
    requires delim != "" && NextPart(t, delim) == Some(RawPart(headers, content, rest)) && Lacks(headers, NAME_KEY)
    ensures PartsFrom(t, delim, form) == PartsFrom(rest, delim, form)
  {
    hide NextPart, TypeOf;
    assert Find(headers, NAME_KEY, 0) == |headers|;
  }

  /** The line break behind a delimiter may be missing. */
  lemma NoBreakNeeded(t: string, delim: string)
    requires delim != "" && |t| >= 2 && t[0] != '\r' && !(t[0] == '-' && t[1] == '-')
    ensures NextPart(t, delim) == PartAt(t, delim) == NextPart("\r\n" + t, delim)
  {
    hide PartAt;
    BehindBreak(t, delim);
  }

  /** A content type header in lower case is read, too. */
  lemma LowerCaseType(s: string, contentType: string)
    requires Line(s) && Lacks(s, TYPE_KEY) && Lacks(s, TYPE_KEY_LOWER)
    requires '\r' !in contentType && Lacks(contentType, TYPE_KEY)
    ensures TypeOf(s + (CRLF + (TYPE_KEY_LOWER + contentType))) == contentType
  {
    hide Lacks, Occurs, Line;
    var key := TYPE_KEY_LOWER;
    KeyChars();
    hide TYPE_KEY_LOWER;
    var u := CRLF + (key + contentType);
    var t, e := s + u, |s| + 2;
    LowerPlaces(s, contentType);
    forall j: nat ensures !Occurs(t, TYPE_KEY, j) {
      NoUpperKey(s, contentType, j);
    }
    forall j: nat | j < e ensures !Occurs(t, key, j) {
      NoLowerKey(s, contentType, j);
    }
    FindIs(t, key, e);
    assert Find(t, TYPE_KEY, 0) == |t|;
    forall j | e + 14 <= j < |t| ensures t[j] != '\r' {
      assert t[j] == contentType[j - e - 14] && contentType[j - e - 14] in contentType;
    }
  }

  /** The content type ends with its line. */
  lemma TypeEndsAtLine(s: string, contentType: string, more: string)
    requires Line(s) && Lacks(s, TYPE_KEY) && '\r' !in contentType
    ensures TypeOf(s + (TYPE_MARK + (contentType + (CRLF + more)))) == contentType
  {
    hide Line, Lacks, Occurs, TYPE_MARK;
    var v := contentType + (CRLF + more);
    var u, e := TYPE_MARK + v, |s| + 2;
    var t := s + u;
    KeyChars();
    TypePlaces(s, v);
    forall j: nat | j < e ensures !Occurs(t, TYPE_KEY, j) {
      if j < |s| {
        NoTypeBefore(s, u, j);
      } else {
        Mismatch(t, TYPE_KEY, j, 12);
      }
    }
    FindIs(t, TYPE_KEY, e);
    LineStops(t, e + 14, contentType, more);
  }

  lemma LineStops(t: string, from: nat, line: string, more: string)
    requires from <= |t| && t[from..] == line + (CRLF + more) && '\r' !in line
    ensures FindCrlf(t, from) == from + |line| < |t| && t[from..from + |line|] == line
  {
    var v := line + (CRLF + more);
    assert forall x :: 0 <= x < |v| ==> t[from + x] == v[x];
    assert forall x :: 0 <= x < |line| ==> v[x] == line[x] && line[x] in line;
    assert v[|line|] == '\r' && v[|line| + 1] == '\n';
    assert CrlfAt(t, from + |line|);
    assert t[from..from + |line|] == v[..|line|];
  }

  /** A value whose quote is never closed is none. */
  lemma UnclosedQuote(headers: string, key: string, p: nat)
    requires key != "" && p < |headers| && p == Find(headers, key, 0) && QUOTE !in headers[p + |key|..]
    ensures QuotedAfter(headers, key) == ""
  {
    assert forall x :: p + |key| <= x < |headers| ==> headers[x] in headers[p + |key|..];
  }

  /** Without a delimiter, a blank line or a closing delimiter there is nothing to read. */
  lemma NothingToRead(body: string, boundary: string)
    requires Lacks(body, "--" + boundary)
    ensures Parsed(body, boundary) == EMPTY
  {
    hide PartsFrom;
    assert Find(body, "--" + boundary, 0) == |body|;
  }

  lemma UnfinishedPart(headers: string, v: string, delim: string)
    requires delim != ""
    ensures (forall j: nat :: !TermAt(headers, j)) ==> PartAt(headers, delim) == None
    ensures Lacks(v, delim) ==> ClosedPart(headers, v, delim) == None
  {
    assert (forall j: nat :: !TermAt(headers, j)) ==> FindTerm(headers, 0) == |headers|;
    assert Lacks(v, delim) ==> Find(v, delim, 0) == |v|;
  }

  lemma LowerPlaces(s: string, contentType: string)
    ensures var t, e := s + (CRLF + (TYPE_KEY_LOWER + contentType)), |s| + 2;
            && |t| == e + 14 + |contentType| && t[e..e + 14] == TYPE_KEY_LOWER && Occurs(t, TYPE_KEY_LOWER, e)
            && t[e + 14..] == contentType && t[|s|] == '\r' && t[|s| + 1] == '\n'
            && (forall x :: 0 <= x < |s| ==> t[x] == s[x]) && (forall x :: 0 <= x < 14 ==> t[e + x] == TYPE_KEY_LOWER[x])
  {
    KeyChars();
    hide TYPE_KEY_LOWER;
    var v := TYPE_KEY_LOWER + contentType;
    Halves(s, CRLF + v);
    Halves(CRLF, v);
    Halves(TYPE_KEY_LOWER, contentType);
    var t := s + (CRLF + v);
    assert t[|s| + 2..] == (CRLF + v)[2..] == v;
    assert t[|s| + 2..|s| + 16] == v[..14];
    assert t[|s| + 16..] == v[14..];
  }

  lemma NoUpperKey(s: string, contentType: string, j: nat)
    requires Line(s) && Lacks(s, TYPE_KEY) && Lacks(contentType, TYPE_KEY)
    ensures !Occurs(s + (CRLF + (TYPE_KEY_LOWER + contentType)), TYPE_KEY, j)
  {
    var t, e := s + (CRLF + (TYPE_KEY_LOWER + contentType)), |s| + 2;
    LowerPlaces(s, contentType);
    KeyDifferences();
    if j < |s| {
      NoTypeBefore(s, CRLF + (TYPE_KEY_LOWER + contentType), j);
    } else if j < e {
      Mismatch(t, TYPE_KEY, j, 0);
    } else if j == e {
      Mismatch(t, TYPE_KEY, j, 0);
    } else if j < e + 14 {
      Mismatch(t, TYPE_KEY, j, 0);
    } else {
      SameText(t, e + 14, contentType, TYPE_KEY, j - e - 14);
    }
  }

  lemma KeyDifferences()
    ensures |TYPE_KEY| == 14 == |TYPE_KEY_LOWER| && TYPE_KEY[0] == 'C' && TYPE_KEY_LOWER[12] == ':'
    ensures forall x :: 0 <= x < 14 ==> TYPE_KEY_LOWER[x] != 'C'
    ensures forall x :: 0 <= x < 14 && TYPE_KEY_LOWER[x] == ':' ==> x == 12
    ensures forall x :: 0 <= x < 14 ==> TYPE_KEY_LOWER[x] != '\r' && TYPE_KEY_LOWER[x] != '\n' && TYPE_KEY_LOWER[x] != QUOTE
  {}

  lemma NoLowerKey(s: string, contentType: string, j: nat)
    requires Line(s) && Lacks(s, TYPE_KEY_LOWER) && j < |s| + 2
    ensures !Occurs(s + (CRLF + (TYPE_KEY_LOWER + contentType)), TYPE_KEY_LOWER, j)
  {
    var t, e := s + (CRLF + (TYPE_KEY_LOWER + contentType)), |s| + 2;
    LowerPlaces(s, contentType);
    KeyDifferences();
    if j + 14 <= |s| {
      SameText(t, 0, s, TYPE_KEY_LOWER, j);
    } else if j < |s| {
      assert t[|s| - 1] == QUOTE;
      Mismatch(t, TYPE_KEY_LOWER, j, |s| - 1 - j);
    } else {
      Mismatch(t, TYPE_KEY_LOWER, j, 0);
    }
  }

  /** Every part whose name no later part of its kind repeats is there, with its own data. */
  lemma {:induction false} EveryPartHeld(form: Form, parts: seq<Part>, k: nat)
    requires k < |parts| && parts[k].name != ""
    requires forall i :: k < i < |parts| ==>
               parts[i].name != parts[k].name || (parts[i].filename == "") != (parts[k].filename == "")
    ensures Holds(Meant(form, parts), parts[k])
    decreases |parts|
  {
    var q := parts[0];
    var next := Stored(form, q.name, q.filename, q.contentType, q.data);
    if k == 0 {
      forall r | r in parts[1..] ensures r.name != q.name || (r.filename == "") != (q.filename == "") {
        var i :| 0 <= i < |parts[1..]| && parts[1..][i] == r;
        assert parts[i + 1] == r;
      }
      MeantKeeps(next, parts[1..], q);
    } else {
      EveryPartHeld(next, parts[1..], k - 1);
    }
  }
}
