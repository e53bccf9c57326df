/**
 Searching in byte strings, the way `std::string_view::find` does it.
 A search that fails returns `|s|`, so that `s[from..r]` is `substr(from, r - from)` in both cases:
 `substr` clips a count of `npos` to the end of the view.
 */
module Text {

  const CRLF: string := "\r\n"

  /** The first `c` at or after `from`. */
  function IndexOf(s: string, c: char, from: nat): (r: nat)
    requires from <= |s|
    ensures from <= r <= |s|
    ensures r < |s| ==> s[r] == c
    ensures forall j :: from <= j < r ==> s[j] != c
    decreases |s| - from
  {
    if from == |s| || s[from] == c then from else IndexOf(s, c, from + 1)
  }

  predicate Occurs(s: string, pat: string, i: nat) {
    i + |pat| <= |s| && s[i..i + |pat|] == pat
  }

  /** The first occurrence of a non-empty `pat` at or after `from`. */
  function Find(s: string, pat: string, from: nat): (r: nat)
    requires from <= |s| && pat != ""
    ensures from <= r <= |s|
    ensures r < |s| ==> Occurs(s, pat, r)
    ensures forall j :: from <= j < r ==> !Occurs(s, pat, j)
    ensures r == |s| ==> forall j: nat :: from <= j ==> !Occurs(s, pat, j)
    decreases |s| - from
  {
    if from == |s| || Occurs(s, pat, from) then from else Find(s, pat, from + 1)
  }

  predicate CrlfAt(s: string, i: nat) {
    i + 2 <= |s| && s[i] == '\r' && s[i + 1] == '\n'
  }

  /** The first CR LF at or after `from`. */
  function FindCrlf(s: string, from: nat): (r: nat)
    requires from <= |s|
    ensures from <= r <= |s|
    ensures r < |s| ==> CrlfAt(s, r)
    ensures forall j :: from <= j < r ==> !CrlfAt(s, j)
    decreases |s| - from
  {
    if from == |s| || CrlfAt(s, from) then from else FindCrlf(s, from + 1)
  }

  /** The blank line that ends a header block: CR LF CR LF at position `i`. */
  predicate TermAt(s: string, i: nat) {
    i + 4 <= |s| && s[i] == '\r' && s[i + 1] == '\n' && s[i + 2] == '\r' && s[i + 3] == '\n'
  }

  /** The first CR LF CR LF at or after `from`. */
  function FindTerm(s: string, from: nat): (r: nat)
    requires from <= |s|
    ensures from <= r <= |s|
    ensures r < |s| ==> TermAt(s, r)
    ensures forall j :: from <= j < r ==> !TermAt(s, j)
    decreases |s| - from
  {
    if from == |s| || TermAt(s, from) then from else FindTerm(s, from + 1)
  }

  /** Position just past the first CR LF CR LF of `s`, or 0 when `s` holds none. */
  function HeaderEnd(s: string): (e: nat)
    ensures e <= |s|
    ensures e == 0 ==> forall j: nat :: !TermAt(s, j)
    ensures e > 0 ==> e >= 4 && TermAt(s, e - 4) && forall j :: 0 <= j < e - 4 ==> !TermAt(s, j)
  {
    var t := FindTerm(s, 0);
    if t < |s| then t + 4 else 0
  }

  /** A head that ends inside a prefix ends at the same place in every continuation, and only there. */
  lemma HeaderEndPrefix(s: string, t: string)
    ensures HeaderEnd(s) > 0 ==> HeaderEnd(s + t) == HeaderEnd(s)
    ensures 0 < HeaderEnd(s + t) <= |s| ==> HeaderEnd(s) == HeaderEnd(s + t)
    ensures HeaderEnd(s + t) == 0 ==> HeaderEnd(s) == 0
  {
    forall j: nat | j + 4 <= |s| ensures TermAt(s + t, j) == TermAt(s, j) {}
    assert forall j: nat :: TermAt(s, j) ==> TermAt(s + t, j);
  }

  lemma Regroup<T>(a: seq<T>, b: seq<T>, c: seq<T>)
    ensures a + (b + c) == (a + b) + c
  {}

  lemma Halves<T>(a: seq<T>, b: seq<T>)
    ensures (a + b)[..|a|] == a && (a + b)[|a|..] == b
  {}

  lemma IndexOfIs(s: string, c: char, from: nat, r: nat)
    requires from <= r < |s| && s[r] == c
    requires forall j :: from <= j < r ==> s[j] != c
    ensures IndexOf(s, c, from) == r
  {}
}
