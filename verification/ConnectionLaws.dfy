/**
 What becomes of the first request of a stream, told by its header fields and the settings alone, and what
 the response to it says.
 */
module ConnectionLaws {
  import opened Prelude
  import opened Text
  import opened Numerals
  import opened HeaderBlock
  import opened RequestHead
  import opened Response
  import opened ReplyStream
  import opened KeepAlive
  import opened Fragmentation
  import opened Connection

  /** The first request of a stream, as far as its head is there. */
  function FirstRequest(s: string): Request {
    ParsedHead(s[..HeaderEnd(s)])
  }

  /** A field that says a word, in any letter case. */
  predicate Says(fields: seq<Field>, name: string, word: string) {
    var v := Lookup(fields, name);
    v.Some? && SameIgnoringCase(v.value, word)
  }

  // Hand-offs

  /** A request to a WebSocket path that asks for the upgrade and brings a key. */
  predicate AsksForWebSocket(cfg: Config, req: Request) {
    && req.path in cfg.ws && Says(req.headers, "upgrade", "websocket")
    && Lookup(req.headers, "sec-websocket-key").Some? && Lookup(req.headers, "sec-websocket-key") != Some("")
  }

  predicate LeavesTheLoop(cfg: Config, req: Request) {
    AsksForWebSocket(cfg, req) || (req.method_ == "GET" && req.path in cfg.sse) || req.path in cfg.stream
  }

  lemma HandsOffExactly(cfg: Config, req: Request)
    ensures HandsOff(cfg, req) <==> LeavesTheLoop(cfg, req)
  {
    hide Lookup, SameIgnoringCase;
  }

  /** What the verdict on the first request makes the first event. */
  lemma FirstEvent(cfg: Config, s: string, count: nat)
    requires HeaderEnd(s) > 0
    ensures var events, e := Reference(cfg, s, count), HeaderEnd(s);
            match First(cfg, s, count)
            case NoRequest => events == []
            case HandOff => events == [HandedOff(FirstRequest(s))]
            case Refuse => events == [TooLarge(FirstRequest(s))]
            case Serve(close, n) =>
              if |s| < e + n then events == [TimedOut(FirstRequest(s))]
              else
                && events != [] && events[0] == Dispatched(FirstRequest(s), s[e..e + n], close)
                && events[1..] == if close then [] else Reference(cfg, s[e + n..], count + 1)
  {
    hide HeaderEnd, ParsedHead, Judge;
    ReferenceUnfold(cfg, s, count, HeaderEnd(s), FirstRequest(s));
  }

  lemma VerdictKinds(cfg: Config, s: string, count: nat)
    requires HeaderEnd(s) > 0
    ensures First(cfg, s, count).NoRequest? <==> FirstRequest(s).method_ == ""
    ensures FirstRequest(s).method_ != "" ==> (First(cfg, s, count).HandOff? <==> LeavesTheLoop(cfg, FirstRequest(s)))
  {
    HandsOffExactly(cfg, FirstRequest(s));
    hide HeaderEnd, ParsedHead, Lookup, ParseU64, Closes, HandsOff, LeavesTheLoop;
  }

  /** A request is handed off exactly in these cases, and then it is the last one. */
  lemma HandedOffExactly(cfg: Config, s: string, count: nat)
    requires HeaderEnd(s) > 0 && FirstRequest(s).method_ != ""
    ensures LeavesTheLoop(cfg, FirstRequest(s)) <==> Reference(cfg, s, count) == [HandedOff(FirstRequest(s))]
  {
    hide *;
    VerdictKinds(cfg, s, count);
    FirstEvent(cfg, s, count);
  }

  /** Without a method there is no request at all. */
  lemma NoMethod(cfg: Config, s: string, count: nat)
    requires HeaderEnd(s) > 0 && FirstRequest(s).method_ == ""
    ensures Reference(cfg, s, count) == []
  {
    hide *;
    VerdictKinds(cfg, s, count);
    FirstEvent(cfg, s, count);
  }

  // Bodies

  /** The body length that the fields announce is `n`: none is announced, or a number starts the field. */
  ghost predicate Announces(fields: seq<Field>, n: nat) {
    match Lookup(fields, "content-length")
    case None => n == 0
    case Some(v) => n < 0x1_0000_0000_0000_0000 && StartsWithNumeral(v, n)
  }

  predicate Stays(cfg: Config, s: string) {
    HeaderEnd(s) > 0 && FirstRequest(s).method_ != "" && !LeavesTheLoop(cfg, FirstRequest(s))
  }

  lemma VerdictOn(cfg: Config, s: string, count: nat, n: nat)
    requires Stays(cfg, s)
    ensures Announces(FirstRequest(s).headers, n) && (n <= cfg.maxBody || Lookup(FirstRequest(s).headers, "content-length").None?) ==>
              First(cfg, s, count) == Serve(Closes(cfg, FirstRequest(s), count + 1), n)
    ensures First(cfg, s, count).Serve? ==>
              Announces(FirstRequest(s).headers, First(cfg, s, count).length)
              && First(cfg, s, count).length <= cfg.maxBody
    ensures First(cfg, s, count).Serve? || First(cfg, s, count) == Refuse
  {
    hide HeaderEnd, ParsedHead, Lookup, ParseU64, Closes, HandsOff, LeavesTheLoop, StartsWithNumeral;
    var req := FirstRequest(s);
    HandsOffExactly(cfg, req);
    var v := Lookup(req.headers, "content-length");
    if v.Some? {
      ParseU64Exactly(v.value, n);
      if ParseU64(v.value).Some? {
        ParseU64Exactly(v.value, ParseU64(v.value).value);
      }
    }
  }

  /** A request is refused exactly when it announces no body length within the limit. */
  lemma RefusedExactly(cfg: Config, s: string, count: nat)
    requires Stays(cfg, s)
    ensures Reference(cfg, s, count) == [TooLarge(FirstRequest(s))]
       <==> forall n: nat :: n <= cfg.maxBody ==> !Announces(FirstRequest(s).headers, n)
  {
    hide HeaderEnd, ParsedHead, Announces, LeavesTheLoop, Lookup, Closes, First, FirstRequest, Reference;
    var v := First(cfg, s, count);
    VerdictOn(cfg, s, count, 0);
    FirstEvent(cfg, s, count);
    forall n: nat | n <= cfg.maxBody && Announces(FirstRequest(s).headers, n) ensures v.Serve? {
      VerdictOn(cfg, s, count, n);
    }
  }

  /** A request whose announced body does not arrive is given up. */
  lemma BodyMissing(cfg: Config, s: string, count: nat, n: nat)
    requires Stays(cfg, s) && Announces(FirstRequest(s).headers, n) && n <= cfg.maxBody
    requires |s| < HeaderEnd(s) + n
    ensures Reference(cfg, s, count) == [TimedOut(FirstRequest(s))]
  {
    hide HeaderEnd, ParsedHead, Announces, LeavesTheLoop, Lookup, Closes, First, FirstRequest, Reference;
    VerdictOn(cfg, s, count, n);
    FirstEvent(cfg, s, count);
  }

  // Keep-alive

  /** The client wants to go on, the limit is not reached, and the server is not stopping. */
  predicate MayGoOn(cfg: Config, req: Request, count: nat) {
    && !Says(req.headers, "connection", "close")
    && (cfg.maxKeepAlive <= 0 || count < cfg.maxKeepAlive) && !cfg.stopping(count)
  }

  lemma ClosesExactly(cfg: Config, req: Request, count: nat)
    ensures Closes(cfg, req, count) <==> !MayGoOn(cfg, req, count)
  {
    hide Lookup, SameIgnoringCase;
  }

  /**
   A request with its body is dispatched, and the connection goes on behind it exactly when client, limit
   and server allow it; otherwise nothing else of the stream is looked at.
   */
  lemma GoesOnExactly(cfg: Config, s: string, count: nat, n: nat)
    requires Stays(cfg, s) && Announces(FirstRequest(s).headers, n) && n <= cfg.maxBody
    requires HeaderEnd(s) + n <= |s|
    ensures var e, on := HeaderEnd(s), MayGoOn(cfg, FirstRequest(s), count + 1);
            && (GoesOn(cfg, s, count) <==> on)
            && Reference(cfg, s, count)
               == [Dispatched(FirstRequest(s), s[e..e + n], !on)] + (if on then Reference(cfg, s[e + n..], count + 1) else [])
  {
    hide HeaderEnd, ParsedHead, Announces, LeavesTheLoop, Lookup, Closes, MayGoOn, First, FirstRequest, Reference;
    VerdictOn(cfg, s, count, n);
    ClosesExactly(cfg, FirstRequest(s), count + 1);
    FirstEvent(cfg, s, count);
    var events := Reference(cfg, s, count);
    assert events == [events[0]] + events[1..];
  }

  // What the response says

  lemma NothingTrimmed(fields: seq<Field>, name: string, v: string)
    requires Lookup(fields, name) == Some(v) && (v != "" ==> !IsBlank(v[0]))
    ensures Lookup(AllTrimmed(fields), name) == Some(v)
  {
    TrimmedLookup(fields, name);
    hide Lookup, AllTrimmed;
    assert SkipBlanks(v, 0) == 0 && v[0..] == v;
  }

  /** Server and date of every response. */
  lemma ServerAndDate(r: Reply, date: string)
    requires Clean(r, date) && (date != "" ==> !IsBlank(date[0]))
    ensures Lookup(HeadFields(HeadOf(r, date)), "server") == Some("Lundi")
    ensures Lookup(HeadFields(HeadOf(r, date)), "date") == Some(date)
  {
    var sd := [Field("Server", "Lundi"), Field("Date", date)];
    FirstTwo(date);
    ReplyHead(r, date, "");
    hide Lookup, HeadOf, HeadFields, HeaderEnd, AllTrimmed, Clean, SameIgnoringCase;
    var rest := PresetFields(r.preset) + (r.headers + (LengthFields(r) + ConnectionFields(r)));
    LookupConcat(sd, rest, "server");
    LookupConcat(sd, rest, "date");
    NothingTrimmed(ReplyFields(r, date), "server", "Lundi");
    NothingTrimmed(ReplyFields(r, date), "date", date);
  }

  lemma FirstTwo(date: string)
    ensures Lookup([Field("Server", "Lundi"), Field("Date", date)], "server") == Some("Lundi")
    ensures Lookup([Field("Server", "Lundi"), Field("Date", date)], "date") == Some(date)
  {
    var sd := [Field("Server", "Lundi"), Field("Date", date)];
    assert SameIgnoringCase("Server", "server") && SameIgnoringCase("Date", "date");
    assert !SameIgnoringCase("Server", "date");
    LookupIsFirst(sd, "server", 0);
    LookupIsFirst(sd, "date", 1);
  }

  function PresetText(p: PresetContentType): string {
    match p
    case NoPreset => ""
    case TextPlain => "text/plain; charset=utf-8"
    case TextHtml => "text/html; charset=utf-8"
    case Json => "application/json; charset=utf-8"
  }

  /** The content type of a response with a preset one. */
  lemma PresetSeen(r: Reply, date: string)
    requires Clean(r, date) && r.preset != NoPreset
    ensures Lookup(HeadFields(HeadOf(r, date)), "content-type") == Some(PresetText(r.preset))
  {
    var sd := [Field("Server", "Lundi"), Field("Date", date)];
    var p := PresetFields(r.preset);
    NoTypeInFront(date);
    assert SameIgnoringCase("Content-Type", "content-type");
    assert Lookup(p, "content-type") == Some(PresetText(r.preset));
    PresetStart(r.preset);
    ReplyHead(r, date, "");
    hide Lookup, HeadOf, HeadFields, HeaderEnd, AllTrimmed, Clean, SameIgnoringCase, PresetFields, PresetText;
    var rest := r.headers + (LengthFields(r) + ConnectionFields(r));
    LookupConcat(sd, p + rest, "content-type");
    LookupConcat(p, rest, "content-type");
    NothingTrimmed(ReplyFields(r, date), "content-type", PresetText(r.preset));
  }

  lemma PresetStart(p: PresetContentType)
    requires p != NoPreset
    ensures PresetText(p) != "" && !IsBlank(PresetText(p)[0])
  {}

  lemma NoTypeInFront(date: string)
    ensures Lookup([Field("Server", "Lundi"), Field("Date", date)], "content-type") == None
  {
    assert !SameIgnoringCase("Server", "content-type") && !SameIgnoringCase("Date", "content-type");
  }

  lemma NoConnectionInFront(r: Reply, date: string)
    ensures Lookup([Field("Server", "Lundi"), Field("Date", date)], "connection") == None
    ensures Lookup(PresetFields(r.preset), "connection") == None && Lookup(LengthFields(r), "connection") == None
  {
    assert !SameIgnoringCase("Server", "connection") && !SameIgnoringCase("Date", "connection");
    assert !SameIgnoringCase("Content-Type", "connection") && !SameIgnoringCase("Content-Length", "connection");
    hide Digits, HasHeader;
  }

  lemma NoOwnConnection(headers: seq<Field>)
    requires Lookup(headers, "connection") == None
    ensures !HasHeader(headers, "Connection", "connection")
  {
    if HasHeader(headers, "Connection", "connection") {
      HeaderFound(headers);
    }
  }

  lemma {:induction false} HeaderFound(headers: seq<Field>)
    requires HasHeader(headers, "Connection", "connection")
    ensures Lookup(headers, "connection").Some?
  {
    var f :| f in headers && (f.name == "Connection" || f.name == "connection");
    assert SameIgnoringCase(f.name, "connection");
    if headers[0] != f {
      assert f in headers[1..];
      HeaderFound(headers[1..]);
    }
  }

  lemma ConnectionLookup(r: Reply, date: string)
    ensures Lookup(ReplyFields(r, date), "connection")
         == if Lookup(r.headers, "connection").Some? then Lookup(r.headers, "connection") else Some("keep-alive")
  {
    NoConnectionInFront(r, date);
    if Lookup(r.headers, "connection") == None {
      NoOwnConnection(r.headers);
      assert SameIgnoringCase("Connection", "connection");
      assert Lookup(ConnectionFields(r), "connection") == Some("keep-alive");
    }
    hide Lookup, PresetFields, LengthFields, ConnectionFields;
    LookupInFive([Field("Server", "Lundi"), Field("Date", date)], PresetFields(r.preset), r.headers,
                 LengthFields(r), ConnectionFields(r), "connection");
  }

  lemma OwnConnection(r: Reply, f: Field)
    requires r.headers == [f] && (f.name == "Connection" || f.name == "connection")
    ensures ConnectionFields(r) == [] && CountOf(r.headers, "connection") == 1
  {
    KnownSpellings(f);
    assert SameIgnoringCase("Connection", "connection");
    OneFieldOnly(f, "connection");
  }

  /** An own connection field, in one of the two known spellings, is the only one that is sent. */
  lemma OwnConnectionOnly(r: Reply, f: Field, date: string)
    requires r.headers == [f] && (f.name == "Connection" || f.name == "connection")
    ensures CountOf(ReplyFields(r, date), "connection") == 1
  {
    var name := "connection";
    var sd := [Field("Server", "Lundi"), Field("Date", date)];
    var p, h, l, c := PresetFields(r.preset), r.headers, LengthFields(r), ConnectionFields(r);
    NoConnectionInFront(r, date);
    OwnConnection(r, f);
    hide PresetFields, LengthFields, ConnectionFields, CountOf, Lookup;
    CountZero(sd, name);
    CountZero(p, name);
    CountZero(l, name);
    CountConcat(l, c, name);
    CountConcat(h, l + c, name);
    CountConcat(p, h + (l + c), name);
    CountConcat(sd, p + (h + (l + c)), name);
    assert c == [] && l + [] == l;
  }

  /**
   Whether the connection goes on is what the response says, when the application leaves that to the server.
   */
  lemma ConnectionSeen(app: App, req: Request, body: string, close: bool, k: nat)
    requires var r := app.respond(k, req, body); Clean(r, app.date(k)) && Lookup(r.headers, "connection") == None
    ensures var rs := Replies(app, Dispatched(req, body, close), k);
            && |rs| == 1 && Clean(rs[0], app.date(k))
            && Sent(app, Dispatched(req, body, close), k) == Serialized(rs[0], app.date(k))
            && rs[0] == app.respond(k, req, body).(headers := rs[0].headers)
            && rs[0].headers == app.respond(k, req, body).headers + (if close then [Field("Connection", "close")] else [])
            && Lookup(HeadFields(HeadOf(rs[0], app.date(k))), "connection") == Some(if close then "close" else "keep-alive")
  {
    hide Clean, Lookup, HeadOf, HeadFields, Serialized, Closing;
    var r, date := app.respond(k, req, body), app.date(k);
    assert r.headers + [] == r.headers;
    ClosingIs(r);
    if close {
      CloseAdded(r, date);
      SaysSo(Closing(r), date, "close");
    } else {
      SaysSo(r, date, "keep-alive");
    }
  }

  lemma ClosingIs(r: SizedReply)
    ensures Closing(r) == r.(headers := r.headers + [Field("Connection", "close")])
  {}

  /** A hand-off writes nothing itself. */
  lemma HandOffIsSilent(app: App, req: Request, k: nat)
    ensures Sent(app, HandedOff(req), k) == ""
  {}

  lemma SaysSo(r: Reply, date: string, word: string)
    requires Clean(r, date) && word != "" && !IsBlank(word[0])
    requires word == match Lookup(r.headers, "connection") case Some(v) => v case None => "keep-alive"
    ensures Lookup(HeadFields(HeadOf(r, date)), "connection") == Some(word)
  {
    hide Lookup, HeadOf, HeadFields, HeaderEnd, AllTrimmed, Clean, ReplyFields, IsBlank;
    ConnectionLookup(r, date);
    ReplyHead(r, date, "");
    NothingTrimmed(ReplyFields(r, date), "connection", word);
  }

  const CLOSE_FIELD: Field := Field("Connection", "close")

  lemma CloseFieldSeen()
    ensures Lookup([CLOSE_FIELD], "connection") == Some("close") && Lookup([CLOSE_FIELD], "content-length") == None
    ensures AllPrintable([CLOSE_FIELD])
  {
    assert SameIgnoringCase("Connection", "connection") && !SameIgnoringCase("Connection", "content-length");
  }

  lemma CloseAdded(r: SizedReply, date: string)
    requires Clean(r, date) && Lookup(r.headers, "connection") == None
    ensures Clean(Closing(r), date) && Lookup(Closing(r).headers, "connection") == Some("close")
    ensures Closing(r).status == r.status && Closing(r).body == r.body && Closing(r).preset == r.preset
  {
    CloseFieldSeen();
    hide Lookup, AllPrintable;
    LookupConcat(r.headers, [CLOSE_FIELD], "connection");
    PrintableConcat(r.headers, [CLOSE_FIELD]);
  }

  /** The two responses of the server itself: their codes, their texts, and that the connection closes. */
  lemma ServersOwn(app: App, req: Request, k: nat, rest: string)
    requires '\r' !in app.date(k)
    ensures OwnReply(Sent(app, TimedOut(req), k), rest, 408, "Request Timeout")
    ensures OwnReply(Sent(app, TooLarge(req), k), rest, 413, "Payload Too Large")
  {
    hide Serialized, OwnReply;
    OwnSplit(408, "Request Timeout", app.date(k), rest);
    OwnSplit(413, "Payload Too Large", app.date(k), rest);
  }

  /** A text that a client splits off as a response with this code and body, and that closes the connection. */
  predicate OwnReply(t: string, rest: string, code: nat, body: string) {
    match SplitReply(t + rest)
    case None => false
    case Some((p, after)) =>
      && p.code == Some(code) && p.body == body && after == rest
      && Lookup(HeadFields(p.head), "connection") == Some("close")
  }

  lemma OwnSplit(status: Int32, text: string, date: string, rest: string)
    requires status >= 0 && '\r' !in date && |text| < U64
    ensures OwnReply(Serialized(Closing(Reply(status, TextPlain, [], text)), date), rest, status, text)
  {
    var plain := Reply(status, TextPlain, [], text);
    var r := Closing(plain);
    assert r.headers == [CLOSE_FIELD];
    CloseAdded(plain, date);
    CloseFieldSeen();
    assert AnnouncedLength(r) == Some(|r.body|);
    hide Lookup, HeadOf, HeadFields, Clean, ReplyFields, Serialized, SplitReply, AnnouncedLength, IsBlank;
    SaysSo(r, date, "close") by { assert !IsBlank('c'); }
    SelfDelimiting(r, date, rest);
  }
}
