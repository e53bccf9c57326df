/**
 The block of header lines shared by requests and responses: how it is split into fields, and how a
 printed block is delimited.
 */
module HeaderBlock {
  import opened Prelude
  import opened Text

  datatype Field = Field(name: string, value: string)

  predicate IsBlank(c: char) {
    c == ' ' || c == '\t'
  }

  /** The first character at or after `from` that is neither a space nor a tab (`find_first_not_of`). */
  function SkipBlanks(s: string, from: nat): (r: nat)
    requires from <= |s|
    ensures from <= r <= |s| && (r < |s| ==> !IsBlank(s[r]))
    ensures forall j :: from <= j < r ==> IsBlank(s[j])
    decreases |s| - from
  {
    if from < |s| && IsBlank(s[from]) then SkipBlanks(s, from + 1) else from
  }

  /** A line with a colon is a field; the value loses its leading blanks only. */
  function FieldsOfLine(line: string): seq<Field> {
    var colon := IndexOf(line, ':', 0);
    if colon == |line| then []
    else [Field(line[..colon], line[SkipBlanks(line, colon + 1)..])]
  }

  /** The fields up to the first empty or unfinished line. */
  function Fields(s: string): seq<Field>
    decreases |s|
  {
    if s == "" then []
    else
      var next := FindCrlf(s, 0);
      if next == |s| || next == 0 then []
      else FieldsOfLine(s[..next]) + Fields(s[next + 2..])
  }

  /** C-locale `tolower`. */
  function ToLower(c: char): char {
    if 'A' <= c <= 'Z' then 'a' + (c - 'A') else c
  }

  predicate SameIgnoringCase(a: string, b: string) {
    |a| == |b| && forall i :: 0 <= i < |a| ==> ToLower(a[i]) == ToLower(b[i])
  }

  /** The value of the first field with this name, letter case aside. */
  function Lookup(fields: seq<Field>, name: string): (r: Option<string>)
    ensures r.None? <==> forall f :: f in fields ==> !SameIgnoringCase(f.name, name)
  {
    if fields == [] then None
    else if SameIgnoringCase(fields[0].name, name) then Some(fields[0].value)
    else Lookup(fields[1..], name)
  }

  lemma {:induction false} LookupIsFirst(fields: seq<Field>, name: string, k: nat)
    requires k < |fields| && SameIgnoringCase(fields[k].name, name)
    requires forall i :: 0 <= i < k ==> !SameIgnoringCase(fields[i].name, name)
    ensures Lookup(fields, name) == Some(fields[k].value)
  {
    if k > 0 {
      LookupIsFirst(fields[1..], name, k - 1);
    }
  }

  lemma {:induction false} LookupConcat(a: seq<Field>, b: seq<Field>, name: string)
    ensures Lookup(a + b, name) == if Lookup(a, name).Some? then Lookup(a, name) else Lookup(b, name)
  {
    if a == [] {
      assert a + b == b;
    } else {
      LookupConcat(a[1..], b, name);
      assert (a + b)[1..] == a[1..] + b;
    }
  }

  /** The loops of `find_header_ci`. */
  method FindHeaderCi(fields: seq<Field>, name: string) returns (r: Option<string>)
    ensures r == Lookup(fields, name)
  {
    var i := 0;
    while i < |fields|
      invariant 0 <= i <= |fields|
      invariant forall k :: 0 <= k < i ==> !SameIgnoringCase(fields[k].name, name)
    {
      if |fields[i].name| == |name| {
        var match_ := true;
        var j := 0;
        while j < |name|
          invariant 0 <= j <= |name|
          invariant match_ ==> forall k :: 0 <= k < j ==> ToLower(fields[i].name[k]) == ToLower(name[k])
          invariant !match_ ==> !SameIgnoringCase(fields[i].name, name)
        {
          if ToLower(fields[i].name[j]) != ToLower(name[j]) {
            match_ := false;
            break;
          }
          j := j + 1;
        }
        if match_ {
          LookupIsFirst(fields, name, i);
          return Some(fields[i].value);
        }
      }
      i := i + 1;
    }
    return None;
  }

  // Printing

  /** A header line can hold anything but a carriage return. */
  predicate IsLine(line: string) {
    line != "" && '\r' !in line
  }

  predicate AreLines(lines: seq<string>) {
    forall l :: l in lines ==> IsLine(l)
  }

  /** Lines, each with its CR LF, and the empty line that ends the block. */
  function Block(lines: seq<string>): string {
    if lines == [] then CRLF else lines[0] + CRLF + Block(lines[1..])
  }

  function LinesText(lines: seq<string>): string {
    if lines == [] then "" else lines[0] + CRLF + LinesText(lines[1..])
  }

  lemma {:induction false} LinesTextConcat(a: seq<string>, b: seq<string>)
    ensures LinesText(a + b) == LinesText(a) + LinesText(b)
  {
    if a == [] {
      assert a + b == b;
    } else {
      LinesTextConcat(a[1..], b);
      assert (a + b)[0] == a[0] && (a + b)[1..] == a[1..] + b;
      Regroup(a[0] + CRLF, LinesText(a[1..]), LinesText(b));
    }
  }

  lemma {:induction false} BlockIsLines(lines: seq<string>)
    ensures Block(lines) == LinesText(lines) + CRLF
  {
    if lines != [] {
      BlockIsLines(lines[1..]);
    }
  }

  lemma FirstCrlf(line: string, rest: string)
    requires '\r' !in line
    ensures FindCrlf(line + CRLF + rest, 0) == |line|
    ensures (line + CRLF + rest)[..|line|] == line
    ensures (line + CRLF + rest)[|line| + 2..] == rest
  {
    var s := line + CRLF + rest;
    assert forall j :: 0 <= j < |line| ==> s[j] == line[j] && line[j] in line;
    assert CrlfAt(s, |line|);
  }

  lemma {:induction false} BlockTerm(line: string, lines: seq<string>, rest: string)
    requires IsLine(line) && AreLines(lines)
    ensures HeaderEnd(line + CRLF + Block(lines) + rest) == |line + CRLF + Block(lines)|
    decreases |lines|
  {
    var b := Block(lines) + rest;
    var s := line + CRLF + b;
    assert s == line + CRLF + Block(lines) + rest;
    assert forall j :: 0 <= j < |line| ==> s[j] == line[j] && line[j] in line;
    if lines == [] {
      assert TermAt(s, |line|);
      assert forall j: nat :: j < |line| ==> !TermAt(s, j);
    } else {
      var l, ls := lines[0], lines[1..];
      assert l in lines && forall x :: x in ls ==> x in lines;
      BlockTerm(l, ls, rest);
      assert b == l + CRLF + Block(ls) + rest && b[0] == l[0] && l[0] in l;
      Shifted(s, b, |line| + 2);
    }
  }

  /** Where the block of `b` ends when `n` bytes without a block end are put in front of it. */
  lemma Shifted(s: string, b: string, n: nat)
    requires n <= |s| && s[n..] == b && HeaderEnd(b) > 0
    requires forall j :: 0 <= j < n ==> !TermAt(s, j)
    ensures HeaderEnd(s) == n + HeaderEnd(b)
  {
    assert forall j: nat :: j + 4 <= |b| ==> (TermAt(b, j) <==> TermAt(s, n + j));
    assert TermAt(b, HeaderEnd(b) - 4);
    assert TermAt(s, n + HeaderEnd(b) - 4);
    forall j: nat | j < n + HeaderEnd(b) - 4 ensures !TermAt(s, j) {
      if j >= n {
        assert !TermAt(b, j - n);
      }
    }
  }

  /** A printed block ends where it should, whatever follows it. */
  lemma BlockEnd(lines: seq<string>, rest: string)
    requires AreLines(lines) && lines != []
    ensures HeaderEnd(Block(lines) + rest) == |Block(lines)|
  {
    assert lines[0] in lines && forall x :: x in lines[1..] ==> x in lines;
    BlockTerm(lines[0], lines[1..], rest);
  }

  function FieldsOfLines(lines: seq<string>): seq<Field> {
    if lines == [] then [] else FieldsOfLine(lines[0]) + FieldsOfLines(lines[1..])
  }

  lemma {:induction false} BlockFields(lines: seq<string>)
    requires AreLines(lines)
    ensures Fields(Block(lines)) == FieldsOfLines(lines)
  {
    if lines == [] {
      assert CrlfAt(CRLF, 0);
      assert FindCrlf(CRLF, 0) == 0;
    } else {
      assert lines[0] in lines && forall x :: x in lines[1..] ==> x in lines;
      BlockFields(lines[1..]);
      FirstCrlf(lines[0], Block(lines[1..]));
    }
  }

  function FieldLine(f: Field): string {
    f.name + ": " + f.value
  }

  function FieldLines(fields: seq<Field>): (lines: seq<string>)
    ensures |lines| == |fields| && forall i :: 0 <= i < |lines| ==> lines[i] == FieldLine(fields[i])
  {
    if fields == [] then [] else [FieldLine(fields[0])] + FieldLines(fields[1..])
  }

  /** A field that survives printing up to the blanks in front of its value. */
  predicate Printable(f: Field) {
    '\r' !in f.name && ':' !in f.name && '\r' !in f.value
  }

  predicate AllPrintable(fields: seq<Field>) {
    forall f :: f in fields ==> Printable(f)
  }

  function Trimmed(f: Field): Field {
    f.(value := f.value[SkipBlanks(f.value, 0)..])
  }

  lemma FieldLineParts(f: Field)
    ensures var l, n := FieldLine(f), |f.name|;
            && |l| == n + 2 + |f.value| && l[n] == ':' && IsBlank(l[n + 1])
            && l[..n] == f.name && l[n + 2..] == f.value
  {
    var l := FieldLine(f);
    assert l == f.name + (": " + f.value);
    Halves(f.name, ": " + f.value);
  }

  lemma FieldColon(f: Field)
    requires Printable(f)
    ensures IsLine(FieldLine(f)) && IndexOf(FieldLine(f), ':', 0) == |f.name|
  {
    FieldLineParts(f);
    var l, n := FieldLine(f), |f.name|;
    assert forall j :: 0 <= j < n ==> l[j] == l[..n][j] && f.name[j] in f.name;
    IndexOfIs(l, ':', 0, n);
  }

  lemma FieldRoundTrip(f: Field)
    requires Printable(f)
    ensures IsLine(FieldLine(f)) && FieldsOfLine(FieldLine(f)) == [Trimmed(f)]
  {
    hide FieldLine, Printable, IsLine;
    var l, n := FieldLine(f), |f.name|;
    FieldLineParts(f);
    FieldColon(f);
    SkipShift(l, f.value, n + 2);
    var k := SkipBlanks(f.value, 0);
    assert SkipBlanks(l, n + 1) == n + 2 + k;
    assert l[n + 2 + k..] == l[n + 2..][k..];
  }

  lemma SkipShift(l: string, v: string, n: nat)
    requires n <= |l| && l[n..] == v
    ensures SkipBlanks(l, n) == n + SkipBlanks(v, 0)
  {
    var k := SkipBlanks(v, 0);
    assert forall j :: 0 <= j < |v| ==> v[j] == l[n + j];
  }

  function AllTrimmed(fields: seq<Field>): seq<Field> {
    if fields == [] then [] else [Trimmed(fields[0])] + AllTrimmed(fields[1..])
  }

  lemma {:induction false} FieldLinesRoundTrip(fields: seq<Field>)
    requires AllPrintable(fields)
    ensures AreLines(FieldLines(fields)) && FieldsOfLines(FieldLines(fields)) == AllTrimmed(fields)
  {
    if fields != [] {
      assert fields[0] in fields && forall x :: x in fields[1..] ==> x in fields;
      FieldRoundTrip(fields[0]);
      FieldLinesRoundTrip(fields[1..]);
      assert FieldLines(fields)[1..] == FieldLines(fields[1..]);
    }
  }

  lemma {:induction false} TrimmedLookup(fields: seq<Field>, name: string)
    ensures |AllTrimmed(fields)| == |fields|
    ensures Lookup(AllTrimmed(fields), name) ==
            match Lookup(fields, name) { case None => None case Some(v) => Some(v[SkipBlanks(v, 0)..]) }
  {
    if fields != [] {
      TrimmedLookup(fields[1..], name);
    }
  }

  lemma {:induction false} TrimmedUnchanged(fields: seq<Field>)
    requires forall f :: f in fields ==> f.value != "" ==> !IsBlank(f.value[0])
    ensures AllTrimmed(fields) == fields
  {
    if fields != [] {
      var f := fields[0];
      assert f in fields && forall x :: x in fields[1..] ==> x in fields;
      assert Trimmed(f) == f by {
        assert SkipBlanks(f.value, 0) == 0;
      }
      hide Trimmed, IsBlank;
      TrimmedUnchanged(fields[1..]);
    }
  }
}
