/** Percent-decoding and query strings. */
module UrlCoding {
  import opened Text
  import opened Numerals

  /** A `%XX` escape at the front of `s`. */
  predicate IsEscape(s: string) {
    |s| > 2 && s[0] == '%' && HexVal(s[1]) >= 0 && HexVal(s[2]) >= 0
  }

  function Byte(hi: nat, lo: nat): char
    requires hi < 16 && lo < 16
  {
    (hi * 16 + lo) as char
  }

  function UrlDecoded(s: string): (t: string)
    ensures |t| <= |s|
  {
    if s == "" then ""
    else if IsEscape(s) then [Byte(HexVal(s[1]), HexVal(s[2]))] + UrlDecoded(s[3..])
    else [if s[0] == '+' then ' ' else s[0]] + UrlDecoded(s[1..])
  }

  method UrlDecode(sv: string) returns (out: string)
    ensures out == UrlDecoded(sv)
  {
    hide HexVal, Byte;
    out := "";
    var i := 0;
    while i < |sv|
      invariant 0 <= i <= |sv|
      invariant UrlDecoded(sv) == out + UrlDecoded(sv[i..])
    {
      ghost var rest := sv[i..];
      if sv[i] == '%' && i + 2 < |sv| {
        var hi := HexVal(sv[i + 1]);
        var lo := HexVal(sv[i + 2]);
        if hi >= 0 && lo >= 0 {
          assert IsEscape(rest) && rest[3..] == sv[i + 3..];
          Regroup(out, [Byte(hi, lo)], UrlDecoded(sv[i + 3..]));
          out := out + [Byte(hi, lo)];
          i := i + 3;
          continue;
        }
      }
      assert !IsEscape(rest) && rest[1..] == sv[i + 1..];
      if sv[i] == '+' {
        Regroup(out, " ", UrlDecoded(sv[i + 1..]));
        out := out + " ";
      } else {
        Regroup(out, [sv[i]], UrlDecoded(sv[i + 1..]));
        out := out + [sv[i]];
      }
      i := i + 1;
    }
  }

  /** Decoding changes nothing exactly when there is no plus sign and no escape to decode. */
  lemma {:induction false} DecodedUnchanged(s: string)
    ensures UrlDecoded(s) == s <==> '+' !in s && forall i :: 0 <= i < |s| ==> !IsEscape(s[i..])
  {
    if s != "" {
      assert s[0..] == s;
      var r := s[1..];
      forall i | 0 <= i < |r| ensures r[i..] == s[i + 1..] {}
      if !IsEscape(s) {
        DecodedUnchanged(r);
        assert s == [s[0]] + r;
        assert '+' in s <==> s[0] == '+' || '+' in r;
        if UrlDecoded(s) == s {
          assert UrlDecoded(s)[1..] == UrlDecoded(r);
          assert UrlDecoded(s)[0] == s[0];
          forall i | 0 <= i < |s| ensures !IsEscape(s[i..]) {
            if i > 0 {
              assert r[i - 1..] == s[i..];
            }
          }
        }
      }
    }
  }

  /** The parser's shortcut: a path without `%` and `+` is its own decoding. */
  lemma NothingToDecode(s: string)
    requires '%' !in s && '+' !in s
    ensures UrlDecoded(s) == s
  {
    DecodedUnchanged(s);
  }

  predicate IsByte(c: char) {
    c as int < 256
  }

  predicate AllBytes(s: string) {
    forall c :: c in s ==> IsByte(c)
  }

  predicate Unreserved(c: char) {
    '0' <= c <= '9' || 'A' <= c <= 'Z' || 'a' <= c <= 'z' || c == '-' || c == '.' || c == '_' || c == '~'
  }

  /** Percent-encoding as in section 2.1 of RFC 3986: everything but the unreserved characters. */
  function UrlEncoded(s: string): (t: string)
    requires AllBytes(s)
    ensures ' ' !in t && '\r' !in t && '?' !in t && '&' !in t && '=' !in t
  {
    if s == "" then ""
    else
      assert IsByte(s[0]);
      var n := s[0] as int;
      var first := if Unreserved(s[0]) then [s[0]]
                   else ['%', UpperDigit(n / 16), UpperDigit(n % 16)];
      first + UrlEncoded(s[1..])
  }

  function UpperDigit(d: nat): (c: char)
    requires d < 16
    ensures HexVal(c) == d && Unreserved(c)
  {
    if d < 10 then '0' + d as char else 'A' + (d - 10) as char
  }

  lemma DecodeEscape(c: char, t: string)
    requires IsByte(c)
    ensures UrlDecoded(['%', UpperDigit(c as int / 16), UpperDigit(c as int % 16)] + t) == [c] + UrlDecoded(t)
  {
    var s := ['%', UpperDigit(c as int / 16), UpperDigit(c as int % 16)] + t;
    hide HexVal, UpperDigit;
    assert s[3..] == t && IsEscape(s);
  }

  lemma DecodePlain(c: char, t: string)
    requires Unreserved(c)
    ensures UrlDecoded([c] + t) == [c] + UrlDecoded(t)
  {
    assert ([c] + t)[1..] == t;
  }

  lemma {:induction false} DecodeEncoded(s: string)
    requires AllBytes(s)
    ensures UrlDecoded(UrlEncoded(s)) == s
  {
    hide UrlDecoded, UpperDigit, Unreserved;
    if s == "" {
      assert UrlDecoded("") == "" by { NothingToDecode(""); }
    } else {
      var c := s[0];
      assert IsByte(c) && s == [c] + s[1..];
      DecodeEncoded(s[1..]);
      if Unreserved(c) {
        DecodePlain(c, UrlEncoded(s[1..]));
      } else {
        DecodeEscape(c, UrlEncoded(s[1..]));
      }
    }
  }

  /** One `name=value` pair, decoded; without an equals sign the value is empty. */
  function PairOf(pair: string): (string, string) {
    var eq := IndexOf(pair, '=', 0);
    if eq < |pair| then (UrlDecoded(pair[..eq]), UrlDecoded(pair[eq + 1..])) else (UrlDecoded(pair), "")
  }

  function QueryPairs(qs: string): seq<(string, string)>
    decreases |qs|
  {
    if qs == "" then []
    else
      var amp := IndexOf(qs, '&', 0);
      var pair := qs[..amp];
      (if pair == "" then [] else [PairOf(pair)]) + (if amp == |qs| then [] else QueryPairs(qs[amp + 1..]))
  }

  method ParseQueryString(query: string) returns (params: seq<(string, string)>)
    ensures params == QueryPairs(query)
  {
    params := [];
    var qs := query;
    while qs != ""
      invariant QueryPairs(query) == params + QueryPairs(qs)
      decreases |qs|
    {
      var amp := IndexOf(qs, '&', 0);
      var pair := qs[..amp];
      ghost var was := params;
      if pair != "" {
        var eq := IndexOf(pair, '=', 0);
        if eq < |pair| {
          var name := UrlDecode(pair[..eq]);
          var value := UrlDecode(pair[eq + 1..]);
          params := params + [(name, value)];
        } else {
          var name := UrlDecode(pair);
          params := params + [(name, "")];
        }
      }
      ghost var added := if pair == "" then [] else [PairOf(pair)];
      assert params == was + added;
      if amp == |qs| {
        assert QueryPairs(qs) == added;
        break;
      }
      Regroup(was, added, QueryPairs(qs[amp + 1..]));
      qs := qs[amp + 1..];
    }
  }

  predicate BytePairs(pairs: seq<(string, string)>) {
    forall p :: p in pairs ==> AllBytes(p.0) && AllBytes(p.1)
  }

  function PairText(p: (string, string)): (t: string)
    requires AllBytes(p.0) && AllBytes(p.1)
    ensures ' ' !in t && '\r' !in t && '&' !in t && t != ""
  {
    UrlEncoded(p.0) + "=" + UrlEncoded(p.1)
  }

  function QueryText(pairs: seq<(string, string)>): (t: string)
    requires BytePairs(pairs)
    ensures ' ' !in t && '\r' !in t
  {
    if pairs == [] then ""
    else
      assert pairs[0] in pairs;
      if |pairs| == 1 then PairText(pairs[0])
      else PairText(pairs[0]) + "&" + QueryText(pairs[1..])
  }

  lemma PairRoundTrip(p: (string, string))
    requires AllBytes(p.0) && AllBytes(p.1)
    ensures PairOf(PairText(p)) == p
  {
    var n, v := UrlEncoded(p.0), UrlEncoded(p.1);
    var t := PairText(p);
    assert forall j :: 0 <= j < |n| ==> t[j] == n[j] && n[j] in n;
    IndexOfIs(t, '=', 0, |n|);
    assert t[..|n|] == n && t[|n| + 1..] == v;
    DecodeEncoded(p.0);
    DecodeEncoded(p.1);
  }

  lemma FirstPair(first: string, rest: string)
    requires first != "" && '&' !in first
    ensures QueryPairs(first) == [PairOf(first)]
    ensures QueryPairs(first + "&" + rest) == [PairOf(first)] + QueryPairs(rest)
  {
    var t := first + "&" + rest;
    assert forall j :: 0 <= j < |first| ==> t[j] == first[j] && first[j] in first;
    IndexOfIs(t, '&', 0, |first|);
    assert t[..|first|] == first && t[|first| + 1..] == rest;
    assert IndexOf(first, '&', 0) == |first| && first[..|first|] == first;
  }

  /** A printed list of pairs, empty names and values included, is read back as it was. */
  lemma {:induction false} QueryRoundTrip(pairs: seq<(string, string)>)
    requires BytePairs(pairs)
    ensures QueryPairs(QueryText(pairs)) == pairs
  {
    if pairs == [] {
      assert QueryPairs("") == [];
    } else {
      assert pairs[0] in pairs;
      PairRoundTrip(pairs[0]);
      hide PairOf, QueryPairs;
      if |pairs| == 1 {
        FirstPair(PairText(pairs[0]), "");
      } else {
        QueryRoundTrip(pairs[1..]);
        FirstPair(PairText(pairs[0]), QueryText(pairs[1..]));
      }
    }
  }
}
