/** URL routing: patterns, the bounded path splitter, the matcher with rollback, first-match lookup. */
module Router {
  import opened Prelude
  import opened Text
  import opened Numerals

  /** A segment of a pattern: fixed text, or a parameter with its name. */
  datatype Segment = Literal(text: string) | IntParam(text: string) | StrParam(text: string)

  datatype ParamValue = IntValue(number: Int32) | StrValue(str: string)

  datatype Param = Param(name: string, value: ParamValue)

  const MAX_SEGMENTS: nat := 16

  // What is matched against what

  /** A piece of a path, unless it is empty. */
  function Piece(part: string): seq<string> {
    if part == "" then [] else [part]
  }

  /** What is left of a path behind the slash at `slash`, if there is one. */
  function Beyond(path: string, slash: nat): string
    requires slash <= |path|
  {
    if slash == |path| then "" else path[slash + 1..]
  }

  /** The non-empty pieces between slashes. */
  function Parts(path: string): (ps: seq<string>)
    decreases |path|
  {
    if path == "" then []
    else
      var slash := IndexOf(path, '/', 0);
      Piece(path[..slash]) + Parts(Beyond(path, slash))
  }

  function Take<T>(s: seq<T>, k: nat): seq<T> {
    if |s| <= k then s else s[..k]
  }

  /** The pieces the matcher looks at. */
  function Seen(path: string): seq<string> {
    Take(Parts(path), MAX_SEGMENTS)
  }

  function SegmentOf(part: string): Segment {
    if part != "" && part[0] == '<' && part[|part| - 1] == '>' then
      var inner := part[1..|part| - 1];
      var colon := IndexOf(inner, ':', 0);
      if colon == |inner| then StrParam(inner)
      else if inner[..colon] == "int" then IntParam(inner[colon + 1..])
      else StrParam(inner[colon + 1..])
    else Literal(part)
  }

  function Segments(parts: seq<string>): seq<Segment> {
    seq(|parts|, i requires 0 <= i < |parts| => SegmentOf(parts[i]))
  }

  predicate Fits(segment: Segment, part: string) {
    match segment
    case Literal(text) => part == text
    case IntParam(_) => ParseInt(part).Some?
    case StrParam(_) => true
  }

  /** A pattern matches a list of pieces of the same length that fit one by one. */
  predicate Matches(pattern: seq<Segment>, parts: seq<string>) {
    |pattern| == |parts| && forall i :: 0 <= i < |pattern| ==> Fits(pattern[i], parts[i])
  }

  /** The parameter a piece gives, if its segment is one. */
  function Caught(segment: Segment, part: string): seq<Param>
    requires Fits(segment, part)
  {
    match segment
    case Literal(_) => []
    case IntParam(name) => [Param(name, IntValue(ParseInt(part).value))]
    case StrParam(name) => [Param(name, StrValue(part))]
  }

  /** The parameters of a match, in the order of the pattern. */
  function Captured(pattern: seq<Segment>, parts: seq<string>): seq<Param>
    requires Matches(pattern, parts)
  {
    if pattern == [] then [] else Caught(pattern[0], parts[0]) + Captured(pattern[1..], parts[1..])
  }

  // The path as a list of pieces

  lemma {:induction false} PartsNonEmpty(path: string)
    ensures forall p :: p in Parts(path) ==> p != "" && '/' !in p
    decreases |path|
  {
    if path != "" {
      var slash := IndexOf(path, '/', 0);
      if slash < |path| {
        PartsNonEmpty(path[slash + 1..]);
      }
    }
  }

  lemma PartsStep(path: string, slash: nat)
    requires path != "" && slash == IndexOf(path, '/', 0)
    ensures Parts(path) == Piece(path[..slash]) + Parts(Beyond(path, slash))
  {
    hide IndexOf, Piece, Beyond;
  }

  /** A slash separates; nothing else about it matters. */
  lemma {:induction false} PartsSplit(a: string, b: string)
    ensures Parts(a + ("/" + b)) == Parts(a) + Parts(b)
    decreases |a|
  {
    hide Parts, IndexOf, Piece;
    var s := a + ("/" + b);
    var k := IndexOf(a, '/', 0);
    assert forall j :: 0 <= j < |a| ==> s[j] == a[j];
    assert s[|a|] == '/' && s[|a| + 1..] == b;
    IndexOfIs(s, '/', 0, k);
    PartsStep(s, k);
    assert s[..k] == a[..k];
    PartsEmpty();
    if a == "" {
    } else if k < |a| {
      PartsStep(a, k);
      assert s[k + 1..] == a[k + 1..] + ("/" + b);
      PartsSplit(a[k + 1..], b);
      Regroup(Piece(a[..k]), Parts(a[k + 1..]), Parts(b));
    } else {
      PartsStep(a, k);
      assert Piece(a[..k]) + [] == Piece(a[..k]);
    }
  }

  lemma PartsEmpty()
    ensures Parts("") == [] && Piece("") == []
  {}

  lemma PartsOfOne(part: string)
    requires part != "" && '/' !in part
    ensures Parts(part) == [part]
  {
    assert IndexOf(part, '/', 0) == |part|;
    assert part[..|part|] == part;
  }

  /** A path of pieces, each behind a slash. */
  function Path(parts: seq<string>): string {
    if parts == [] then "" else "/" + (parts[0] + Path(parts[1..]))
  }

  predicate IsPiece(part: string) {
    part != "" && '/' !in part
  }

  /** Splitting a path gives back the pieces it was made of. */
  lemma {:induction false} PathRoundTrip(parts: seq<string>)
    requires forall p :: p in parts ==> IsPiece(p)
    ensures Parts(Path(parts)) == parts
  {
    hide Parts, IsPiece;
    PartsEmpty();
    if parts != [] {
      var rest := parts[1..];
      assert parts[0] in parts && forall p :: p in rest ==> p in parts;
      PathRoundTrip(rest);
      PieceFirst(parts[0], rest);
      SlashFirst(parts[0] + Path(rest));
      assert parts == [parts[0]] + rest;
    }
  }

  lemma SlashFirst(s: string)
    ensures Parts("/" + s) == Parts(s)
  {
    hide Parts;
    PartsEmpty();
    PartsSplit("", s);
    assert "" + ("/" + s) == "/" + s && [] + Parts(s) == Parts(s);
  }

  lemma PieceFirst(part: string, rest: seq<string>)
    requires IsPiece(part) && Parts(Path(rest)) == rest
    ensures Parts(part + Path(rest)) == [part] + rest
  {
    PartsOfOne(part);
    hide Parts;
    if rest == [] {
      assert part + "" == part && [part] + rest == [part];
    } else {
      var r := rest[0] + Path(rest[1..]);
      PartsEmpty();
      PartsSplit("", r);
      assert "" + ("/" + r) == Path(rest) == "/" + r;
      assert [] + Parts(r) == Parts(r);
      PartsSplit(part, r);
    }
  }

  /** Doubled, leading and trailing slashes change nothing. */
  lemma SlashesIgnored(a: string, b: string)
    ensures Parts(a + ("//" + b)) == Parts(a + ("/" + b))
    ensures Parts("/" + a) == Parts(a) == Parts(a + "/")
  {
    hide Parts;
    PartsEmpty();
    PartsSplit(a, "/" + b);
    PartsSplit(a, b);
    PartsSplit("", b);
    PartsSplit("", a);
    PartsSplit(a, "");
    assert "/" + ("/" + b) == "//" + b && "" + ("/" + b) == "/" + b;
    assert "" + ("/" + a) == "/" + a && "/" + "" == "/";
  }

  // The depth limit

  function Literals(parts: seq<string>): (pattern: seq<Segment>)
    ensures |pattern| == |parts| && forall i :: 0 <= i < |parts| ==> pattern[i] == Literal(parts[i])
  {
    if parts == [] then [] else [Literal(parts[0])] + Literals(parts[1..])
  }

  ghost predicate SeenAsWhole(path: string) {
    forall pattern :: Matches(pattern, Seen(path)) == Matches(pattern, Parts(path))
  }

  /** The matcher decides about the whole path exactly for paths of at most 16 pieces. */
  lemma DepthLimit(path: string)
    ensures SeenAsWhole(path) <==> |Parts(path)| <= 16
  {
    if |Parts(path)| > MAX_SEGMENTS {
      var pattern := Literals(Seen(path));
      assert Matches(pattern, Seen(path)) && !Matches(pattern, Parts(path));
    }
  }

  // The loops

  /** `split_path_sv`: at most 16 pieces, in a fixed array. */
  method SplitPath(path: string) returns (segments: array<string>, count: nat)
    ensures fresh(segments) && segments.Length == MAX_SEGMENTS && count <= MAX_SEGMENTS
    ensures segments[..count] == Seen(path)
  {
    hide Parts;
    segments := new string[MAX_SEGMENTS];
    count := 0;
    var rest := path;
    PartsEmpty();
    if rest != "" && rest[0] == '/' {
      PartsStep(rest, 0);
      rest := rest[1..];
    }
    while rest != "" && count < MAX_SEGMENTS
      invariant count <= MAX_SEGMENTS && segments.Length == MAX_SEGMENTS
      invariant segments[..count] + Parts(rest) == Parts(path)
      decreases |rest|
    {
      var slash := IndexOf(rest, '/', 0);
      PartsStep(rest, slash);
      var part := rest[..slash];
      ghost var before := segments[..count];
      if part != "" {
        segments[count] := part;
        count := count + 1;
        assert segments[..count] == before + [part];
      }
      ghost var tail := Parts(Beyond(rest, slash));
      Regroup(before, Piece(part), tail);
      assert before + Piece(part) == segments[..count];
      if slash == |rest| {
        rest := "";
        break;
      }
      rest := rest[slash + 1..];
    }
    assert count < MAX_SEGMENTS ==> segments[..count] + [] == segments[..count];
    assert (segments[..count] + Parts(rest))[..count] == segments[..count];
  }

  lemma SegmentsSnoc(parts: seq<string>, part: string)
    ensures Segments(parts + [part]) == Segments(parts) + [SegmentOf(part)]
  {
    hide SegmentOf;
  }

  /** A pattern is cut at its slashes like a path, but without a limit. */
  function PatternOf(text: string): seq<Segment> {
    Segments(Parts(text))
  }

  /** `parse_pattern`. */
  method ParsePattern(pattern: string) returns (segments: seq<Segment>)
    ensures segments == PatternOf(pattern)
  {
    hide Parts, Segments;
    segments := [];
    var rest := pattern;
    ghost var done := [];
    PartsEmpty();
    NoSegments();
    if rest != "" && rest[0] == '/' {
      PartsStep(rest, 0);
      rest := rest[1..];
    }
    while rest != ""
      invariant done + Parts(rest) == Parts(pattern)
      invariant segments == Segments(done)
      decreases |rest|
    {
      var slash := IndexOf(rest, '/', 0);
      PartsStep(rest, slash);
      var part := rest[..slash];
      ghost var before := done;
      if part != "" {
        if part[0] == '<' && part[|part| - 1] == '>' {
          var inner := part[1..|part| - 1];
          var colon := IndexOf(inner, ':', 0);
          if colon != |inner| {
            var kind := inner[..colon];
            var name := inner[colon + 1..];
            if kind == "int" {
              segments := segments + [IntParam(name)];
            } else {
              segments := segments + [StrParam(name)];
            }
          } else {
            segments := segments + [StrParam(inner)];
          }
        } else {
          segments := segments + [Literal(part)];
        }
        SegmentsSnoc(done, part);
        done := done + [part];
      }
      ghost var tail := Parts(Beyond(rest, slash));
      Regroup(before, Piece(part), tail);
      assert before + Piece(part) == done;
      if slash == |rest| {
        rest := "";
        break;
      }
      rest := rest[slash + 1..];
    }
    assert done + [] == done;
  }

  lemma NoSegments()
    ensures Segments([]) == []
  {}

  lemma {:induction false} CapturedSnoc(pattern: seq<Segment>, parts: seq<string>, k: nat)
    requires k < |pattern| && k < |parts| && Matches(pattern[..k], parts[..k])
    ensures Matches(pattern[..k + 1], parts[..k + 1]) == Fits(pattern[k], parts[k])
    ensures Fits(pattern[k], parts[k]) ==>
              Captured(pattern[..k + 1], parts[..k + 1])
              == Captured(pattern[..k], parts[..k]) + Caught(pattern[k], parts[k])
  {
    hide Fits, Caught;
    var p, q := pattern[..k + 1], parts[..k + 1];
    Slices(pattern, k);
    Slices(parts, k);
    assert forall i :: 0 <= i < k ==> p[i] == p[..k][i] && q[i] == q[..k][i];
    if Fits(pattern[k], parts[k]) && k > 0 {
      assert Fits(pattern[..k][0], parts[..k][0]);
      MatchesTail(pattern[..k], parts[..k]);
      CapturedSnoc(pattern[1..], parts[1..], k - 1);
    }
  }

  lemma Slices<T>(s: seq<T>, k: nat)
    requires k < |s|
    ensures s[..k + 1][..k] == s[..k]
    ensures k > 0 ==> s[1..][..k - 1] == s[..k][1..] && s[1..][..k] == s[..k + 1][1..]
  {}

  lemma MatchesTail(pattern: seq<Segment>, parts: seq<string>)
    requires pattern != [] && Matches(pattern, parts)
    ensures Matches(pattern[1..], parts[1..])
  {
    hide Fits;
    assert forall i :: 0 <= i < |pattern| - 1 ==> pattern[1..][i] == pattern[i + 1] && parts[1..][i] == parts[i + 1];
  }

  /** The vector of parameters a lookup fills. */
  class Params {
    var entries: seq<Param>

    method PushBack(p: Param)
      modifies this
      ensures entries == old(entries) + [p]
    {
      entries := entries + [p];
    }

    /** `resize` to a smaller size. */
    method Shrink(size: nat)
      requires size <= |entries|
      modifies this
      ensures entries == old(entries)[..size]
    {
      entries := entries[..size];
    }

    method Clear()
      modifies this
      ensures entries == []
    {
      entries := [];
    }
  }

  /** `match_route`: appends the parameters of a match; a failure leaves the vector as it was. */
  method MatchRoute(pattern: seq<Segment>, path: string, params: Params) returns (ok: bool)
    modifies params
    ensures ok == Matches(pattern, Seen(path))
    ensures params.entries == old(params.entries) + if ok then Captured(pattern, Seen(path)) else []
  {
    hide Seen, ParseInt, Captured, Matches;
    NothingCaptured();
    var parts, count := SplitPath(path);
    ghost var seen := Seen(path);
    assert |seen| == count;
    assert |seen| != |pattern| ==> !Matches(pattern, seen) by { SameLength(pattern, seen); }
    assert params.entries + [] == params.entries;
    if count != |pattern| {
      return false;
    }
    assert pattern[..0] == [] && seen[..0] == [];
    var size := |params.entries|;
    var i := 0;
    while i < |pattern|
      invariant i <= |pattern| == count == |seen| && parts.Length == MAX_SEGMENTS && seen == parts[..count]
      invariant Matches(pattern[..i], seen[..i])
      invariant params.entries == old(params.entries) + Captured(pattern[..i], seen[..i])
    {
      var segment, part := pattern[i], parts[i];
      CapturedSnoc(pattern, seen, i);
      ghost var was := old(params.entries);
      ghost var caught := Captured(pattern[..i], seen[..i]);
      PrefixMatches(pattern, seen, i + 1);
      Regroup(was, caught, if Fits(segment, part) then Caught(segment, part) else []);
      assert (was + caught)[..size] == was;
      assert caught + [] == caught && was + [] == was;
      match segment {
        case Literal(text) =>
          if part != text {
            params.Shrink(size);
            return false;
          }
        case IntParam(name) =>
          var number := ParseInt(part);
          if number.None? {
            params.Shrink(size);
            return false;
          }
          params.PushBack(Param(name, IntValue(number.value)));
        case StrParam(name) =>
          params.PushBack(Param(name, StrValue(part)));
      }
      i := i + 1;
    }
    assert pattern[..i] == pattern && seen[..i] == seen;
    return true;
  }

  lemma PrefixMatches(pattern: seq<Segment>, parts: seq<string>, k: nat)
    requires k <= |pattern| == |parts|
    ensures Matches(pattern, parts) ==> Matches(pattern[..k], parts[..k])
  {
    hide Fits;
  }

  lemma NothingCaptured()
    ensures Matches([], []) && Captured([], []) == []
  {}

  lemma SameLength(pattern: seq<Segment>, parts: seq<string>)
    ensures Matches(pattern, parts) ==> |pattern| == |parts|
  {}

  // The router

  datatype Route<H> = Route(verb: string, pattern: seq<Segment>, handler: H)

  predicate Hit<H>(route: Route<H>, verb: string, path: string) {
    route.verb == verb && Matches(route.pattern, Seen(path))
  }

  /** The first route of a table that a request hits. */
  function FirstHit<H>(routes: seq<Route<H>>, verb: string, path: string): (k: nat)
    ensures k <= |routes|
    ensures k < |routes| ==> Hit(routes[k], verb, path)
    ensures forall j :: 0 <= j < k ==> !Hit(routes[j], verb, path)
  {
    if routes == [] || Hit(routes[0], verb, path) then 0 else 1 + FirstHit(routes[1..], verb, path)
  }

  /** The parameters a lookup leaves: nothing is cleared unless some route has the method. */
  function ParamsLeft<H>(routes: seq<Route<H>>, verb: string, path: string, was: seq<Param>): seq<Param> {
    var k := FirstHit(routes, verb, path);
    if k < |routes| then Captured(routes[k].pattern, Seen(path))
    else if exists j :: 0 <= j < |routes| && routes[j].verb == verb then []
    else was
  }

  /** What was in the vector before a lookup is gone afterwards exactly when some route has the method. */
  lemma ClearedExactly<H>(routes: seq<Route<H>>, verb: string, path: string)
    ensures (forall was :: ParamsLeft(routes, verb, path, was) == ParamsLeft(routes, verb, path, []))
       <==> exists j :: 0 <= j < |routes| && routes[j].verb == verb
  {
    hide Matches, Captured, Seen;
    var k := FirstHit(routes, verb, path);
    if !exists j :: 0 <= j < |routes| && routes[j].verb == verb {
      assert k == |routes|;
      var left := [Param("id", IntValue(1))];
      assert ParamsLeft(routes, verb, path, left) == left != [];
    }
  }

  class Router<H> {
    var routes: seq<Route<H>>

    constructor ()
      ensures routes == []
    {
      routes := [];
    }

    method Add(verb: string, pattern: string, handler: H)
      modifies this
      ensures routes == old(routes) + [Route(verb, PatternOf(pattern), handler)]
    {
      var segments := ParsePattern(pattern);
      routes := routes + [Route(verb, segments, handler)];
    }

    /** The position of the route whose handler answers, or none. */
    method Resolve(verb: string, path: string, params: Params) returns (hit: Option<nat>)
      modifies params
      ensures hit == if FirstHit(routes, verb, path) < |routes| then Some(FirstHit(routes, verb, path)) else None
      ensures params.entries == ParamsLeft(routes, verb, path, old(params.entries))
    {
      hide Matches, Captured, Seen;
      ghost var k := FirstHit(routes, verb, path);
      for i := 0 to |routes|
        invariant i <= k
        invariant params.entries
               == if exists j :: 0 <= j < i && routes[j].verb == verb then [] else old(params.entries)
      {
        if routes[i].verb != verb {
          continue;
        }
        params.Clear();
        var ok := MatchRoute(routes[i].pattern, path, params);
        if ok {
          return Some(i);
        }
      }
      return None;
    }
  }
}
