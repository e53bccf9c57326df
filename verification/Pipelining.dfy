/** Whole conversations: pipelined requests in, delimited responses out, whatever the reads were. */
module Pipelining {
  import opened Prelude
  import opened Text
  import opened Numerals
  import opened UrlCoding
  import opened HeaderBlock
  import opened RequestHead
  import opened Response
  import opened ReplyStream
  import opened KeepAlive
  import opened Fragmentation
  import opened Connection

  /** A request as a client means it. */
  datatype Ask = Ask(method_: string, path: string, query: seq<(string, string)>, headers: seq<Field>, body: string)

  /** Requests that can be printed: at most 31 headers, none of them a length of its own. */
  predicate Askable(a: Ask) {
    && IsMethod(a.method_) && AllBytes(a.path) && BytePairs(a.query)
    && AllPrintable(a.headers) && |a.headers| < MAX_HEADERS
    && Lookup(a.headers, "content-length") == None
    && |a.body| < U64
  }

  function AskHeaders(a: Ask): seq<Field> {
    a.headers + [Field("Content-Length", Digits(|a.body|, 10))]
  }

  function AskHead(a: Ask): string
    requires AllBytes(a.path) && BytePairs(a.query)
  {
    HeadText(a.method_, a.path, a.query, AskHeaders(a))
  }

  function AskText(a: Ask): string
    requires AllBytes(a.path) && BytePairs(a.query)
  {
    AskHead(a) + a.body
  }

  /** What the handler should be given. */
  function Meant(a: Ask): Request
    requires AllBytes(a.path) && BytePairs(a.query)
  {
    Request(a.method_, a.path, Target(a.path, a.query), a.query, AllTrimmed(AskHeaders(a)))
  }

  /** A request with a body within its limit that stays in the HTTP loop and keeps it going. */
  predicate Served(cfg: Config, a: Ask, count: nat) {
    Askable(a) && |a.body| <= cfg.maxBody && !HandsOff(cfg, Meant(a)) && !Closes(cfg, Meant(a), count)
  }

  /** Such a request with a head within its limit, too. */
  predicate Plain(cfg: Config, a: Ask, count: nat) {
    Served(cfg, a, count) && |AskHead(a)| <= cfg.maxHeader
  }

  /** Plain requests, numbered from `count + 1`. */
  predicate AllPlain(cfg: Config, asks: seq<Ask>, count: nat)
    ensures AllPlain(cfg, asks, count) ==> AllAskable(asks)
  {
    asks == [] || (Plain(cfg, asks[0], count + 1) && AllPlain(cfg, asks[1..], count + 1))
  }

  predicate AllAskable(asks: seq<Ask>) {
    asks == [] || (Askable(asks[0]) && AllAskable(asks[1..]))
  }

  function AllText(asks: seq<Ask>): string
    requires AllAskable(asks)
  {
    if asks == [] then "" else AskText(asks[0]) + AllText(asks[1..])
  }

  /** What a server ought to dispatch for these requests. */
  function Wanted(asks: seq<Ask>): (events: seq<Event>)
    requires AllAskable(asks)
    ensures |events| == |asks|
  {
    if asks == [] then [] else [Dispatched(Meant(asks[0]), asks[0].body, false)] + Wanted(asks[1..])
  }

  lemma AskHeadersPrintable(a: Ask)
    requires Askable(a)
    ensures AllPrintable(AskHeaders(a)) && |AskHeaders(a)| <= MAX_HEADERS
  {
    DigitsPrintable(|a.body|);
    hide Digits;
    PrintableConcat(a.headers, [Field("Content-Length", Digits(|a.body|, 10))]);
  }

  lemma AskLength(a: Ask)
    requires Askable(a)
    ensures Lookup(Meant(a).headers, "content-length") == Some(Digits(|a.body|, 10))
    ensures ParseU64(Digits(|a.body|, 10)) == Some(|a.body|)
  {
    var d := Digits(|a.body|, 10);
    DigitsPrintable(|a.body|);
    ParseU64Digits(|a.body|, "");
    assert d + "" == d && d[0..] == d && SkipBlanks(d, 0) == 0;
    assert SameIgnoringCase("Content-Length", "content-length");
    assert Lookup([Field("Content-Length", d)], "content-length") == Some(d);
    hide Digits, ParseU64, Lookup;
    LookupConcat(a.headers, [Field("Content-Length", d)], "content-length");
    TrimmedLookup(AskHeaders(a), "content-length");
  }

  lemma AskReadBack(a: Ask, rest: string)
    requires Askable(a)
    ensures HeaderEnd(AskHead(a) + rest) == |AskHead(a)| > 0
    ensures ParsedHead(AskHead(a)) == Meant(a)
  {
    AskHeadersPrintable(a);
    hide HeadText, AskHeaders, ParsedHead, HeaderEnd;
    HeadRoundTrip(a.method_, a.path, a.query, AskHeaders(a), rest);
  }

  lemma AskJudged(cfg: Config, a: Ask, count: nat)
    requires Served(cfg, a, count)
    ensures Judge(cfg, Meant(a), count) == Serve(false, |a.body|)
  {
    AskLength(a);
    hide Digits, ParseU64, Lookup, HandsOff, Closes, AskHeaders;
  }

  /** A printed request in front of any stream is the first request of that stream, exactly as meant. */
  lemma AskGoesFirst(cfg: Config, a: Ask, rest: string, count: nat)
    requires Served(cfg, a, count + 1)
    ensures var s := AskText(a) + rest;
            && GoesOn(cfg, s, count)
            && ServedFirst(cfg, s, count) == Dispatched(Meant(a), a.body, false)
            && Behind(s, First(cfg, s, count).length) == rest
            && HeaderEnd(s) == |AskHead(a)| && First(cfg, s, count).length == |a.body|
  {
    hide AskHead, Meant, ParsedHead, HeaderEnd, HandsOff, Closes, Judge;
    var head, t := AskHead(a), a.body + rest;
    var s := head + t;
    AskReadBack(a, t);
    AskJudged(cfg, a, count + 1);
    Regroup(head, a.body, rest);
    Halves(head, t);
    Halves(a.body, rest);
    assert s[|head|..|head| + |a.body|] == t[..|a.body|] && s[|head| + |a.body|..] == t[|a.body|..];
  }

  lemma FirstOfMany(cfg: Config, a: Ask, tail: string, count: nat)
    requires Plain(cfg, a, count + 1)
    ensures Reference(cfg, AskText(a) + tail, count)
         == [Dispatched(Meant(a), a.body, false)] + Reference(cfg, tail, count + 1)
    ensures WithinLimit(cfg, AskText(a) + tail, count) <==> WithinLimit(cfg, tail, count + 1)
  {
    assert Served(cfg, a, count + 1) && |AskHead(a)| <= cfg.maxHeader;
    hide *;
    AskGoesFirst(cfg, a, tail, count);
    ReferenceStep(cfg, AskText(a) + tail, count);
  }

  lemma FirstAsk(cfg: Config, asks: seq<Ask>, rest: string, count: nat)
    requires asks != [] && AllPlain(cfg, asks, count)
    ensures Plain(cfg, asks[0], count + 1) && Askable(asks[0]) && AllPlain(cfg, asks[1..], count + 1)
    ensures AllAskable(asks[1..]) && AllBytes(asks[0].path) && BytePairs(asks[0].query)
    ensures AllText(asks) + rest == AskText(asks[0]) + (AllText(asks[1..]) + rest)
    ensures Wanted(asks) == [Dispatched(Meant(asks[0]), asks[0].body, false)] + Wanted(asks[1..])
  {
    hide AskText, Meant;
    Regroup(AskText(asks[0]), AllText(asks[1..]), rest);
  }

  lemma NoAsks(rest: string)
    ensures AllText([]) + rest == rest && Wanted([]) == []
  {}

  /** Printed requests are dispatched one by one, and what follows them is served after them. */
  lemma {:induction false} Pipelined(cfg: Config, asks: seq<Ask>, rest: string, count: nat)
    requires AllPlain(cfg, asks, count)
    ensures Reference(cfg, AllText(asks) + rest, count) == Wanted(asks) + Reference(cfg, rest, count + |asks|)
    ensures WithinLimit(cfg, AllText(asks) + rest, count) <==> WithinLimit(cfg, rest, count + |asks|)
  {
    hide *;
    if asks == [] {
      NoAsks(rest);
      assert [] + Reference(cfg, rest, count) == Reference(cfg, rest, count);
    } else {
      FirstAsk(cfg, asks, rest, count);
      FirstOfMany(cfg, asks[0], AllText(asks[1..]) + rest, count);
      Pipelined(cfg, asks[1..], rest, count + 1);
      Regroup([Dispatched(Meant(asks[0]), asks[0].body, false)], Wanted(asks[1..]), Reference(cfg, rest, count + |asks|));
    }
  }

  /** Every list of plain requests is dispatched as it was meant, however its bytes are cut into reads. */
  lemma PipelinedForEverySchedule(cfg: Config, asks: seq<Ask>, schedule: Schedule)
    requires AllPlain(cfg, asks, 0)
    ensures Events(cfg, schedule, Start(AllText(asks)), 0) == Wanted(asks)
  {
    var s := AllText(asks);
    assert HeaderEnd("") == 0 && Reference(cfg, "", |asks|) == [] && WithinLimit(cfg, "", |asks|);
    assert s + "" == s && Stream(Start(s)) == s;
    hide Reference, WithinLimit, Events, HeaderEnd, AllPlain;
    Pipelined(cfg, asks, "", 0);
    DispatchesAll(cfg, schedule, Start(s), 0);
  }

  // Responses

  /** Responses that can be told apart: clean headers and an honest length. */
  predicate Honest(r: Reply, date: string) {
    Clean(r, date) && AnnouncedLength(r) == Some(|r.body|)
  }

  /** Every event is answered honestly; the first one is number `k`. */
  predicate AllHonest(app: App, events: seq<Event>, k: nat) {
    events == []
    || (Replies(app, events[0], k) != [] && Honest(Replies(app, events[0], k)[0], app.date(k))
        && AllHonest(app, events[1..], k + 1))
  }

  /** The code, head and body of the answer to every event. */
  function Answers(app: App, events: seq<Event>, k: nat): seq<Part>
    requires AllHonest(app, events, k)
  {
    if events == [] then []
    else
      var r := Replies(app, events[0], k)[0];
      [PartOf(r, app.date(k))] + Answers(app, events[1..], k + 1)
  }

  lemma HonestDelimits(r: Reply, date: string, rest: string)
    requires Honest(r, date)
    ensures SplitReply(Serialized(r, date) + rest) == Some((PartOf(r, date), rest))
  {
    hide Serialized, SplitReply, HeadOf, AnnouncedLength, Clean;
    SelfDelimiting(r, date, rest);
  }

  lemma FirstAnswer(app: App, events: seq<Event>, k: nat, rest: string) returns (r: Reply)
    requires events != [] && AllHonest(app, events, k)
    ensures Honest(r, app.date(k)) && AllHonest(app, events[1..], k + 1)
    ensures Output(app, events, k) + rest == Serialized(r, app.date(k)) + (Output(app, events[1..], k + 1) + rest)
    ensures Answers(app, events, k) == [PartOf(r, app.date(k))] + Answers(app, events[1..], k + 1)
  {
    hide Serialized, Honest, Replies, HeadOf;
    r := Replies(app, events[0], k)[0];
    Regroup(Serialized(r, app.date(k)), Output(app, events[1..], k + 1), rest);
  }

  lemma NoAnswers(app: App, k: nat, rest: string)
    ensures Output(app, [], k) + rest == rest && SplitReplies(rest, 0) == Some(([], rest))
    ensures AllHonest(app, [], k) && Answers(app, [], k) == []
  {}

  /** The bytes written split into one answer per event, in order, and nothing else. */
  lemma {:induction false} OutputSplits(app: App, events: seq<Event>, k: nat, rest: string)
    requires AllHonest(app, events, k)
    ensures SplitReplies(Output(app, events, k) + rest, |events|) == Some((Answers(app, events, k), rest))
  {
    hide *;
    if events == [] {
      NoAnswers(app, k, rest);
    } else {
      var r := FirstAnswer(app, events, k, rest);
      var part, tail := PartOf(r, app.date(k)), Output(app, events[1..], k + 1) + rest;
      HonestDelimits(r, app.date(k), tail);
      OutputSplits(app, events[1..], k + 1, rest);
      SplitMore(Serialized(r, app.date(k)) + tail, |events| - 1, part, tail, Answers(app, events[1..], k + 1), rest);
    }
  }

  /**
   A pipelined conversation: for every list of plain requests and every way of cutting them into reads, a
   client that splits the bytes it receives finds exactly one answer per request, in order: the one the
   application gave for that request and body.
   */
  lemma Conversation(cfg: Config, app: App, asks: seq<Ask>, schedule: Schedule)
    requires AllPlain(cfg, asks, 0) && AllHonest(app, Wanted(asks), 0)
    ensures SplitReplies(Output(app, Events(cfg, schedule, Start(AllText(asks)), 0), 0), |asks|)
         == Some((Answers(app, Wanted(asks), 0), ""))
  {
    hide Events, Output, SplitReplies, AllHonest;
    PipelinedForEverySchedule(cfg, asks, schedule);
    OutputSplits(app, Wanted(asks), 0, "");
    assert Output(app, Wanted(asks), 0) + "" == Output(app, Wanted(asks), 0);
  }
}
