/** Patterns and paths written out and read back, and what that means for a lookup. */
module RoutePrinting {
  import opened Text
  import opened Numerals
  import opened Router

  // Patterns

  /** The segments that have a spelling at all. */
  predicate CanPrint(segment: Segment) {
    match segment
    case Literal(text) => IsPiece(text) && !(text[0] == '<' && text[|text| - 1] == '>')
    case IntParam(name) => '/' !in name
    case StrParam(name) => '/' !in name
  }

  function Typed(kind: string, name: string): string {
    "<" + (kind + (":" + (name + ">")))
  }

  function SegmentText(segment: Segment): string {
    match segment
    case Literal(text) => text
    case IntParam(name) => Typed("int", name)
    case StrParam(name) => if ':' in name then Typed("str", name) else "<" + (name + ">")
  }

  function Texts(pattern: seq<Segment>): (parts: seq<string>)
    ensures |parts| == |pattern|
    ensures forall i :: 0 <= i < |pattern| ==> parts[i] == SegmentText(pattern[i])
  {
    if pattern == [] then [] else [SegmentText(pattern[0])] + Texts(pattern[1..])
  }

  function PatternText(pattern: seq<Segment>): string {
    Path(Texts(pattern))
  }

  /** A parameter with a type: only `int` makes an integer, and the first colon ends the type. */
  lemma TypedRoundTrip(kind: string, name: string)
    requires ':' !in kind
    ensures SegmentOf(Typed(kind, name)) == if kind == "int" then IntParam(name) else StrParam(name)
  {
    hide Typed;
    TypedInner(kind, name);
    InnerColon(kind, name);
  }

  lemma TypedInner(kind: string, name: string)
    ensures var part := Typed(kind, name);
            && |part| >= 2 && part[0] == '<' && part[|part| - 1] == '>'
            && part[1..|part| - 1] == kind + (":" + name)
  {
    var inner := kind + (":" + name);
    Regroup(kind, ":" + name, ">");
    Regroup(":", name, ">");
    assert Typed(kind, name) == "<" + (inner + ">");
    Halves(inner, ">");
  }

  lemma InnerColon(kind: string, name: string)
    requires ':' !in kind
    ensures var inner := kind + (":" + name);
            && IndexOf(inner, ':', 0) == |kind| < |inner|
            && inner[..|kind|] == kind && inner[|kind| + 1..] == name
  {
    var inner := kind + (":" + name);
    Halves(kind, ":" + name);
    assert forall j :: 0 <= j < |kind| ==> inner[j] == kind[j] && kind[j] in kind;
    assert inner[|kind|] == ':' && inner[|kind| + 1..] == inner[|kind|..][1..] == name;
    IndexOfIs(inner, ':', 0, |kind|);
  }

  lemma TypedIsPiece(kind: string, name: string)
    requires '/' !in kind && '/' !in name
    ensures IsPiece(Typed(kind, name))
  {
    assert '/' !in ":" + (name + ">");
  }

  lemma UntypedRoundTrip(name: string)
    requires ':' !in name
    ensures SegmentOf("<" + (name + ">")) == StrParam(name)
    ensures '/' !in name ==> IsPiece("<" + (name + ">"))
  {
    var part := "<" + (name + ">");
    assert part[0] == '<' && part[|part| - 1] == '>' && part[1..|part| - 1] == name;
  }

  lemma SegmentRoundTrip(segment: Segment)
    requires CanPrint(segment)
    ensures SegmentOf(SegmentText(segment)) == segment && IsPiece(SegmentText(segment))
  {
    hide Typed;
    match segment
    case Literal(_) =>
    case IntParam(name) =>
      TypedRoundTrip("int", name);
      TypedIsPiece("int", name);
    case StrParam(name) =>
      if ':' in name {
        TypedRoundTrip("str", name);
        TypedIsPiece("str", name);
      } else {
        UntypedRoundTrip(name);
      }
  }

  /** A segment can be read from some piece of a pattern exactly when it is printable. */
  lemma ReadableIsPrintable(part: string)
    requires IsPiece(part)
    ensures CanPrint(SegmentOf(part))
  {
    if part[0] == '<' && part[|part| - 1] == '>' {
      var inner := part[1..|part| - 1];
      var colon := IndexOf(inner, ':', 0);
      assert '/' !in inner;
      assert colon < |inner| ==> '/' !in inner[colon + 1..];
    }
  }

  /** A printed pattern is read back segment by segment. */
  lemma PatternRoundTrip(pattern: seq<Segment>)
    requires forall s :: s in pattern ==> CanPrint(s)
    ensures PatternOf(PatternText(pattern)) == pattern
  {
    hide SegmentOf, SegmentText, CanPrint, IsPiece, Parts, Path;
    var parts := Texts(pattern);
    forall i | 0 <= i < |pattern|
      ensures IsPiece(parts[i]) && SegmentOf(parts[i]) == pattern[i]
    {
      assert pattern[i] in pattern;
      SegmentRoundTrip(pattern[i]);
    }
    PathRoundTrip(parts);
  }

  /** Any pattern text and its printed form mean the same: printing is a normal form. */
  lemma PatternNormalForm(text: string)
    ensures PatternOf(PatternText(PatternOf(text))) == PatternOf(text)
  {
    hide SegmentOf, CanPrint, Parts;
    var parts := Parts(text);
    var pattern := PatternOf(text);
    PartsNonEmpty(text);
    forall s | s in pattern ensures CanPrint(s) {
      var i :| 0 <= i < |pattern| && pattern[i] == s;
      assert parts[i] in parts;
      ReadableIsPrintable(parts[i]);
    }
    PatternRoundTrip(pattern);
  }

  // Paths

  /** Values for the parameters of a pattern, in order and of the right kinds. */
  predicate Suits(pattern: seq<Segment>, values: seq<ParamValue>) {
    if pattern == [] then values == []
    else
      match pattern[0]
      case Literal(text) => IsPiece(text) && Suits(pattern[1..], values)
      case IntParam(_) => values != [] && values[0].IntValue? && Suits(pattern[1..], values[1..])
      case StrParam(_) =>
        values != [] && values[0].StrValue? && IsPiece(values[0].str) && Suits(pattern[1..], values[1..])
  }

  /** The pieces of the path that has these values in the places of the parameters. */
  function Filled(pattern: seq<Segment>, values: seq<ParamValue>): seq<string>
    requires Suits(pattern, values)
  {
    if pattern == [] then []
    else
      match pattern[0]
      case Literal(text) => [text] + Filled(pattern[1..], values)
      case IntParam(_) => [IntText(values[0].number)] + Filled(pattern[1..], values[1..])
      case StrParam(_) => [values[0].str] + Filled(pattern[1..], values[1..])
  }

  /** The names of a pattern's parameters. */
  function Names(pattern: seq<Segment>): seq<string> {
    if pattern == [] then []
    else (if pattern[0].Literal? then [] else [pattern[0].text]) + Names(pattern[1..])
  }

  /** Names and values, one by one. */
  predicate Binds(params: seq<Param>, names: seq<string>, values: seq<ParamValue>) {
    && |params| == |names| == |values|
    && forall i :: 0 <= i < |params| ==> params[i].name == names[i] && params[i].value == values[i]
  }

  lemma BindsCons(p: Param, params: seq<Param>, names: seq<string>, values: seq<ParamValue>)
    requires values != [] && p.value == values[0] && Binds(params, names, values[1..])
    ensures Binds([p] + params, [p.name] + names, values)
  {
    forall i | 0 <= i < |values|
      ensures ([p] + params)[i].name == ([p.name] + names)[i] && ([p] + params)[i].value == values[i]
    {
      if i > 0 {
        assert values[i] == values[1..][i - 1];
      }
    }
  }

  lemma MatchesCons(pattern: seq<Segment>, part: string, parts: seq<string>)
    requires pattern != [] && Fits(pattern[0], part) && Matches(pattern[1..], parts)
    ensures Matches(pattern, [part] + parts)
    ensures Captured(pattern, [part] + parts) == Caught(pattern[0], part) + Captured(pattern[1..], parts)
  {
    hide Fits, Caught;
    var all := [part] + parts;
    forall i | 0 <= i < |pattern| ensures Fits(pattern[i], all[i]) {
      if i > 0 {
        assert Fits(pattern[1..][i - 1], parts[i - 1]);
      }
    }
    assert all[1..] == parts;
  }

  /** The filled pieces match, and the match gives back the names and the values in order. */
  lemma {:induction false} FilledMatches(pattern: seq<Segment>, values: seq<ParamValue>)
    requires Suits(pattern, values)
    ensures var parts := Filled(pattern, values);
            && (forall p :: p in parts ==> IsPiece(p))
            && Matches(pattern, parts) && Binds(Captured(pattern, parts), Names(pattern), values)
  {
    hide ParseInt, IntText, Matches, Binds, Captured;
    if pattern == [] {
      NothingMatches();
    } else {
      match pattern[0]
      case Literal(text) =>
        FilledMatches(pattern[1..], values);
        MatchesCons(pattern, text, Filled(pattern[1..], values));
        assert [] + Captured(pattern[1..], Filled(pattern[1..], values)) == Captured(pattern[1..], Filled(pattern[1..], values));
        assert [] + Names(pattern[1..]) == Names(pattern[1..]);
      case IntParam(name) =>
        var rest := Filled(pattern[1..], values[1..]);
        FilledMatches(pattern[1..], values[1..]);
        ParseIntText(values[0].number);
        MatchesCons(pattern, IntText(values[0].number), rest);
        BindsCons(Param(name, values[0]), Captured(pattern[1..], rest), Names(pattern[1..]), values);
      case StrParam(name) =>
        var rest := Filled(pattern[1..], values[1..]);
        FilledMatches(pattern[1..], values[1..]);
        MatchesCons(pattern, values[0].str, rest);
        BindsCons(Param(name, values[0]), Captured(pattern[1..], rest), Names(pattern[1..]), values);
    }
  }

  lemma NothingMatches()
    ensures Matches([], []) && Captured([], []) == [] && Binds([], [], [])
  {}

  /** A filled path matches its pattern exactly when the pattern is not too deep, and gives the values back. */
  lemma FillRoundTrip(pattern: seq<Segment>, values: seq<ParamValue>)
    requires Suits(pattern, values)
    ensures var seen := Seen(Path(Filled(pattern, values)));
            && (Matches(pattern, seen) <==> |pattern| <= 16)
            && (|pattern| <= MAX_SEGMENTS ==> Binds(Captured(pattern, seen), Names(pattern), values))
  {
    hide Filled, Path, Parts, Fits, Captured, Binds, IsPiece;
    FilledMatches(pattern, values);
    PathRoundTrip(Filled(pattern, values));
  }

  function Values(params: seq<Param>): (values: seq<ParamValue>)
    ensures |values| == |params| && forall i :: 0 <= i < |params| ==> values[i] == params[i].value
  {
    if params == [] then [] else [params[0].value] + Values(params[1..])
  }

  lemma ValuesCons(p: Param, params: seq<Param>)
    ensures Values([p] + params) == [p.value] + Values(params)
  {
    assert ([p] + params)[1..] == params;
  }

  /** Whatever a path matched can be filled in again. */
  lemma {:induction false} CapturedSuits(pattern: seq<Segment>, parts: seq<string>)
    requires Matches(pattern, parts) && forall p :: p in parts ==> IsPiece(p)
    ensures Suits(pattern, Values(Captured(pattern, parts)))
    decreases |pattern|
  {
    hide ParseInt, IsPiece, Values;
    if pattern == [] {
      NoValues();
    } else {
      assert Fits(pattern[0], parts[0]) && parts[0] in parts;
      MatchesTail(pattern, parts);
      CapturedSuits(pattern[1..], parts[1..]);
      var caught, rest := Caught(pattern[0], parts[0]), Captured(pattern[1..], parts[1..]);
      if pattern[0].Literal? {
        assert caught + rest == rest;
      } else {
        ValuesCons(caught[0], rest);
        assert ([caught[0].value] + Values(rest))[1..] == Values(rest);
      }
    }
  }

  lemma NoValues()
    ensures Values([]) == []
  {}

  /** Filling a pattern with what a path gave leads to a path that gives the same. */
  lemma RefilledPath(pattern: seq<Segment>, path: string)
    requires Matches(pattern, Seen(path))
    ensures var params := Captured(pattern, Seen(path));
            && Suits(pattern, Values(params))
            && var again := Seen(Path(Filled(pattern, Values(params))));
               Matches(pattern, again) && Values(Captured(pattern, again)) == Values(params)
  {
    hide Filled, Path, Parts, Captured, Suits, IsPiece;
    PiecesSeen(path);
    CapturedSuits(pattern, Seen(path));
    FillRoundTrip(pattern, Values(Captured(pattern, Seen(path))));
  }

  lemma PiecesSeen(path: string)
    ensures forall p :: p in Seen(path) ==> IsPiece(p)
  {
    hide Parts;
    PartsNonEmpty(path);
    assert forall p :: p in Seen(path) ==> p in Parts(path);
  }

  // Integers in paths

  /** An integer segment fits a piece exactly when the piece is a numeral in the range of an `int`. */
  lemma IntPieces(name: string, part: string)
    ensures Fits(IntParam(name), part) <==> exists v: Int32 :: IntNumeral(part, v)
  {
    hide ParseInt, IntNumeral;
    if Fits(IntParam(name), part) {
      ParseIntExactly(part, ParseInt(part).value);
    }
    forall v: Int32 | IntNumeral(part, v) ensures Fits(IntParam(name), part) {
      ParseIntExactly(part, v);
    }
  }

  lemma NumeralShape(s: string, v: Int32)
    requires IntNumeral(s, v)
    ensures forall c :: c in s ==> c == '-' || '0' <= c <= '9'
    ensures s != "" && s != "-" && '-' !in s[1..]
  {
    hide Digits, DigitRun;
    var k: nat :| (v >= 0 && s == ZeroPadded(k, Abs(v))) || (v <= 0 && s == "-" + ZeroPadded(k, Abs(v)));
    var ds := ZeroPadded(k, Abs(v));
    ZerosInFront(k, Abs(v));
    forall c | c in ds ensures '0' <= c <= '9' {
      var i :| 0 <= i < |ds| && ds[i] == c;
      assert IsDigit(ds[i], 10);
      TenDigits(c);
    }
    assert s != ds ==> s[1..] == ds;
  }

  /** A route with one integer answers a path of two pieces with exactly the numerals behind its own word. */
  lemma IntRoute<H>(verb: string, word: string, name: string, handler: H, part: string, v: Int32, was: seq<Param>)
    requires IsPiece(word) && IsPiece(part)
    ensures var routes := [Route(verb, [Literal(word), IntParam(name)], handler)];
            var path := Path([word, part]);
            && (FirstHit(routes, verb, path) == 0 <==> exists n: Int32 :: IntNumeral(part, n))
            && (IntNumeral(part, v) ==> ParamsLeft(routes, verb, path, was) == [Param(name, IntValue(v))])
  {
    var routes, path := [Route(verb, [Literal(word), IntParam(name)], handler)], Path([word, part]);
    hide ParseInt, IntNumeral, Parts, Path, IsPiece;
    PathRoundTrip([word, part]);
    IntPieces(name, part);
    assert Seen(path) == [word, part];
    TwoSegments(word, name, part);
    ParseIntExactly(part, v);
  }

  lemma TwoSegments(word: string, name: string, part: string)
    ensures var pattern := [Literal(word), IntParam(name)];
            && (Matches(pattern, [word, part]) <==> Fits(IntParam(name), part))
            && (Fits(IntParam(name), part) ==>
                  Matches(pattern, [word, part])
                  && Captured(pattern, [word, part]) == [Param(name, IntValue(ParseInt(part).value))])
  {
    hide ParseInt;
    var pattern := [Literal(word), IntParam(name)];
    assert pattern[1..] == [IntParam(name)] && [word, part][1..] == [part] && [part][1..] == [] && pattern[1..][1..] == [];
    if Fits(IntParam(name), part) {
      NothingMatches();
      MatchesCons([IntParam(name)], part, []);
      MatchesCons(pattern, word, [part]);
      assert [part] + [] == [part] && [word] + [part] == [word, part];
    }
    assert Matches(pattern, [word, part]) ==> Fits(pattern[1], [word, part][1]);
  }

  /** A route without parameters answers exactly the path of its own words, letter by letter. */
  lemma LiteralRoute(words: seq<string>, parts: seq<string>)
    ensures Matches(Literals(words), parts) <==> parts == words
  {
    var pattern := Literals(words);
    if Matches(pattern, parts) {
      forall i | 0 <= i < |words| ensures parts[i] == words[i] {
        assert Fits(pattern[i], parts[i]);
      }
    }
  }

  /** A route with one string answers whatever stands behind its own word, and hands that over. */
  lemma WordRoute<H>(verb: string, word: string, name: string, handler: H, first: string, part: string, was: seq<Param>)
    requires IsPiece(word) && IsPiece(first) && IsPiece(part)
    ensures var routes := [Route(verb, [Literal(word), StrParam(name)], handler)];
            var path := Path([first, part]);
            && (FirstHit(routes, verb, path) == 0 <==> first == word)
            && (first == word ==> ParamsLeft(routes, verb, path, was) == [Param(name, StrValue(part))])
  {
    var pattern := [Literal(word), StrParam(name)];
    var path := Path([first, part]);
    hide Parts, Path, IsPiece;
    PathRoundTrip([first, part]);
    assert Seen(path) == [first, part];
    if first == word {
      NothingMatches();
      MatchesCons([StrParam(name)], part, []);
      assert pattern[1..] == [StrParam(name)] && pattern[1..][1..] == [];
      MatchesCons(pattern, word, [part]);
      assert [part] + [] == [part] && [word] + [part] == [word, part];
    }
    assert Matches(pattern, [first, part]) ==> Fits(pattern[0], [first, part][0]);
  }

  /** Routes of other methods never answer. */
  lemma {:induction false} WrongMethod<H>(routes: seq<Route<H>>, verb: string, path: string)
    requires forall r :: r in routes ==> r.verb != verb
    ensures FirstHit(routes, verb, path) == |routes|
  {
    if routes != [] {
      assert routes[0] in routes && forall r :: r in routes[1..] ==> r in routes;
      WrongMethod(routes[1..], verb, path);
    }
  }

  // Lookup

  /** A lookup does not see doubled, leading and trailing slashes. */
  lemma LookupIgnoresSlashes<H>(routes: seq<Route<H>>, verb: string, a: string, b: string, was: seq<Param>)
    ensures FirstHit(routes, verb, a + ("//" + b)) == FirstHit(routes, verb, a + ("/" + b))
    ensures ParamsLeft(routes, verb, a + ("//" + b), was) == ParamsLeft(routes, verb, a + ("/" + b), was)
    ensures FirstHit(routes, verb, "/" + a) == FirstHit(routes, verb, a) == FirstHit(routes, verb, a + "/")
    ensures ParamsLeft(routes, verb, "/" + a, was) == ParamsLeft(routes, verb, a, was)
         == ParamsLeft(routes, verb, a + "/", was)
  {
    hide Parts, Matches, Captured;
    SlashesIgnored(a, b);
    SamePieces(routes, verb, a + ("//" + b), a + ("/" + b));
    SamePieces(routes, verb, "/" + a, a);
    SamePieces(routes, verb, a + "/", a);
  }

  lemma {:induction false} SamePieces<H>(routes: seq<Route<H>>, verb: string, p: string, q: string)
    requires Parts(p) == Parts(q)
    ensures FirstHit(routes, verb, p) == FirstHit(routes, verb, q)
  {
    hide Parts, Matches;
    if routes != [] {
      SamePieces(routes[1..], verb, p, q);
    }
  }

  /** Routes added later answer only what no earlier route answers. */
  lemma {:induction false} EarlierRoutesWin<H>(routes: seq<Route<H>>, more: seq<Route<H>>, verb: string, path: string)
    ensures FirstHit(routes + more, verb, path)
         == if FirstHit(routes, verb, path) < |routes| then FirstHit(routes, verb, path)
            else |routes| + FirstHit(more, verb, path)
  {
    hide Hit;
    if routes == [] {
      assert routes + more == more;
    } else {
      assert (routes + more)[0] == routes[0] && (routes + more)[1..] == routes[1..] + more;
      EarlierRoutesWin(routes[1..], more, verb, path);
    }
  }

  /** From registration to handler: a route printed, added and asked for with given values answers with them. */
  lemma AddedRouteAnswers<H>(routes: seq<Route<H>>, verb: string, pattern: seq<Segment>, handler: H,
                             values: seq<ParamValue>, was: seq<Param>)
    requires (forall s :: s in pattern ==> CanPrint(s)) && |pattern| <= MAX_SEGMENTS && Suits(pattern, values)
    requires var path := Path(Filled(pattern, values)); FirstHit(routes, verb, path) == |routes|
    ensures var path := Path(Filled(pattern, values));
            var all := routes + [Route(verb, PatternOf(PatternText(pattern)), handler)];
            && FirstHit(all, verb, path) == |routes|
            && Binds(ParamsLeft(all, verb, path, was), Names(pattern), values)
  {
    hide PatternOf, PatternText, Path, Filled, Seen, Binds, Matches, Captured, Suits;
    var route := Route(verb, PatternOf(PatternText(pattern)), handler);
    var path := Path(Filled(pattern, values));
    PatternRoundTrip(pattern);
    FillRoundTrip(pattern, values);
    EarlierRoutesWin(routes, [route], verb, path);
    assert FirstHit([route], verb, path) == 0;
  }
}
