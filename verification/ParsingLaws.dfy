/** What the small steps of the parsers do to text of any kind, printed or not. */
module ParsingLaws {
  import opened Prelude
  import opened Text
  import opened Numerals
  import opened UrlCoding
  import opened HeaderBlock
  import opened RequestHead

  // Percent decoding

  predicate IsHex(c: char) {
    '0' <= c <= '9' || 'a' <= c <= 'f' || 'A' <= c <= 'F'
  }

  /** An escape is a percent sign with two hexadecimal digits behind it, of either case. */
  lemma EscapeExactly(s: string)
    ensures IsEscape(s) <==> |s| >= 3 && s[0] == '%' && IsHex(s[1]) && IsHex(s[2])
  {}

  lemma PlusIsSpace(t: string)
    ensures UrlDecoded("+" + t) == " " + UrlDecoded(t)
  {
    assert ("+" + t)[1..] == t;
  }

  /** Any other character that does not start an escape stays. */
  lemma OthersStay(c: char, t: string)
    requires c != '+' && !IsEscape([c] + t)
    ensures UrlDecoded([c] + t) == [c] + UrlDecoded(t)
  {
    assert ([c] + t)[1..] == t;
  }

  /** Lower-case escapes of every byte. */
  lemma LowerEscape(n: nat, t: string)
    requires n < 256
    ensures UrlDecoded("%" + ([DigitChar(n / 16)] + ([DigitChar(n % 16)] + t))) == [n as char] + UrlDecoded(t)
  {
    var s := "%" + ([DigitChar(n / 16)] + ([DigitChar(n % 16)] + t));
    assert s[0] == '%' && s[1] == DigitChar(n / 16) && s[2] == DigitChar(n % 16) && s[3..] == t;
    LowerDigit(n / 16);
    LowerDigit(n % 16);
    hide DigitChar, HexVal;
  }

  lemma LowerDigit(d: nat)
    requires d < 16
    ensures HexVal(DigitChar(d)) == d
  {}

  /** The digits themselves. */
  lemma DigitsSpelled(d: nat)
    requires d < 16
    ensures Digits(d, 16) == ["0123456789abcdef"[d]]
    ensures d < 10 ==> Digits(d, 10) == ["0123456789"[d]]
  {}

  lemma UpperHex()
    ensures HexVal('A') == 10 && HexVal('B') == 11 && HexVal('C') == 12
    ensures HexVal('D') == 13 && HexVal('E') == 14 && HexVal('F') == 15
  {}

  // Query strings

  lemma EmptyPiece(qs: string)
    ensures QueryPairs("&" + qs) == QueryPairs(qs)
  {
    var s := "&" + qs;
    IndexOfIs(s, '&', 0, 0);
    assert s[..0] == "" && s[1..] == qs;
    hide PairOf;
    assert [] + QueryPairs(qs) == QueryPairs(qs);
  }

  /** A piece without an equals sign is a name with an empty value. */
  lemma NameOnly(name: string)
    requires '=' !in name && '&' !in name && name != ""
    ensures QueryPairs(name) == [(UrlDecoded(name), "")]
  {
    hide UrlDecoded;
    assert IndexOf(name, '&', 0) == |name| && IndexOf(name, '=', 0) == |name|;
    assert name[..|name|] == name;
  }

  /** Only the first equals sign of a piece separates. */
  lemma FirstEquals(name: string, value: string)
    requires '=' !in name && '&' !in name && '&' !in value
    ensures QueryPairs(name + ("=" + value)) == [(UrlDecoded(name), UrlDecoded(value))]
  {
    hide UrlDecoded;
    var s := name + ("=" + value);
    assert forall j :: 0 <= j < |name| ==> s[j] == name[j] && name[j] in name;
    assert s[|name|] == '=' && s[..|name|] == name && s[|name| + 1..] == value;
    IndexOfIs(s, '=', 0, |name|);
    assert '&' !in s;
    assert IndexOf(s, '&', 0) == |s| && s[..|s|] == s;
  }

  // Header lines

  /** Two characters have the same lower case when they are equal or the two cases of one letter. */
  lemma SameLetter(c: char, d: char)
    ensures ToLower(c) == ToLower(d) <==>
            c == d || ('A' <= c <= 'Z' && d as int == c as int + 32) || ('A' <= d <= 'Z' && c as int == d as int + 32)
  {}

  /** A name that no field has is not found. */
  lemma {:induction false} NotThere(fields: seq<Field>, name: string)
    requires forall f :: f in fields ==> !SameIgnoringCase(f.name, name)
    ensures Lookup(fields, name) == None
  {
    if fields != [] {
      assert fields[0] in fields && forall f :: f in fields[1..] ==> f in fields;
      NotThere(fields[1..], name);
    }
  }

  /** Spaces and tabs in front of a value are dropped, and nothing else is. */
  lemma BlanksDropped(name: string, blanks: string, value: string)
    requires ':' !in name && (forall c :: c in blanks ==> c == ' ' || c == '\t')
    requires value != "" ==> value[0] != ' ' && value[0] != '\t'
    ensures FieldsOfLine(name + (":" + (blanks + value))) == [Field(name, value)]
  {
    hide SkipBlanks;
    var t := blanks + value;
    var l, n := name + (":" + t), |name|;
    Regroup(name, ":", t);
    SplitAt(name, ':', t);
    SkipShift(l, t, n + 1);
    BlanksSkipped(blanks, value);
    assert l[n + 1 + |blanks|..] == l[n + 1..][|blanks|..] == value;
  }

  lemma BlanksSkipped(blanks: string, value: string)
    requires forall c :: c in blanks ==> c == ' ' || c == '\t'
    requires value != "" ==> value[0] != ' ' && value[0] != '\t'
    ensures SkipBlanks(blanks + value, 0) == |blanks| && (blanks + value)[|blanks|..] == value
  {
    var t := blanks + value;
    assert forall j :: 0 <= j < |blanks| ==> t[j] == blanks[j] && blanks[j] in blanks;
    assert value != "" ==> t[|blanks|] == value[0];
  }

  /** A line without a colon is no field. */
  lemma NoColon(line: string)
    requires ':' !in line
    ensures FieldsOfLine(line) == []
  {
    assert IndexOf(line, ':', 0) == |line|;
  }

  /** An unfinished line is no field either, and an empty line ends the fields. */
  lemma WhereFieldsEnd(t: string, rest: string)
    requires forall j: nat :: !CrlfAt(t, j)
    ensures Fields(t) == [] && Fields(CRLF + rest) == []
  {
    assert CrlfAt(CRLF + rest, 0);
    assert FindCrlf(t, 0) == |t|;
  }

  /** At most 32 fields are kept, and it is the first ones. */
  lemma FirstThirtyTwo(fields: seq<Field>, k: nat)
    requires k < |fields| && k < 32
    ensures k < |FirstHeaders(fields)| <= 32 && FirstHeaders(fields)[k] == fields[k]
  {}

  // Request lines

  /** Without two blanks there is no request, and so no method. */
  lemma TwoBlanksNeeded(a: string, b: string)
    requires ' ' !in a && ' ' !in b
    ensures ParsedLine(a).method_ == "" && ParsedLine(a + " " + b).method_ == ""
  {
    hide UrlDecoded, QueryPairs;
    var l := a + " " + b;
    NotFound(a, ' ');
    SplitAt(a, ' ', b);
    assert forall j :: |a| < j < |l| ==> l[j] == b[j - |a| - 1] && b[j - |a| - 1] in b;
    WithoutTarget(a);
    WithoutTarget(l);
  }

  /** A target without a question mark is the path, whatever stands behind the second blank. */
  lemma PlainTarget(method_: string, raw: string, version: string)
    requires ' ' !in method_ && ' ' !in raw && '?' !in raw
    ensures ParsedLine(method_ + " " + (raw + " " + version)) == RequestLine(method_, UrlDecoded(raw), raw, [])
  {
    hide UrlDecoded, ParsedLine, IndexOf, QueryPairs;
    NotFound(raw, '?');
    assert raw[..|raw|] == raw;
    LineParts(method_ + " " + (raw + " " + version), method_, raw, version);
  }

  /** The first question mark of a target separates path and query. */
  lemma TargetWithQuery(method_: string, path: string, query: string, version: string)
    requires ' ' !in method_ && ' ' !in path && '?' !in path && ' ' !in query
    ensures var raw := path + "?" + query;
            ParsedLine(method_ + " " + (raw + " " + version))
            == RequestLine(method_, UrlDecoded(path), raw, QueryPairs(query))
  {
    hide UrlDecoded, ParsedLine, IndexOf, QueryPairs;
    var raw := path + "?" + query;
    SplitAt(path, '?', query);
    LineParts(method_ + " " + (raw + " " + version), method_, raw, version);
  }

  /** A head without a finished first line is no request. */
  lemma NoFirstLine(s: string)
    requires forall j: nat :: !CrlfAt(s, j)
    ensures ParsedHead(s) == NO_REQUEST && NO_REQUEST.method_ == ""
  {
    assert FindCrlf(s, 0) == |s|;
  }
}
