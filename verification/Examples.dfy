/**
 Examples that fix the texts and numbers of the wire formats: those of the repository's own unit tests, and of
 the standards.
 */
module Examples {
  import opened Text
  import opened Numerals
  import opened UrlCoding
  import opened HeaderBlock
  import opened RequestHead
  import opened ParsingLaws
  import opened Response
  import opened Base64
  import opened Chunked
  import opened Multipart
  import opened MultipartPrinting
  import opened Router
  import opened RoutePrinting

  // Request heads

  /** The smallest request. */
  lemma SmallestRequest(rest: string)
    ensures HeaderEnd("GET / HTTP/1.1\r\n\r\n" + rest) == 18
    ensures ParsedHead("GET / HTTP/1.1\r\n\r\n") == Request("GET", "/", "/", [], [])
  {
    var line := "GET" + " " + ("/" + " " + "HTTP/1.1");
    assert line == "GET / HTTP/1.1" && IsLine(line);
    OneLineBlock(line);
    PlainTarget("GET", "/", "HTTP/1.1");
    NothingToDecode("/");
    hide UrlDecoded, ParsedHead, ParsedLine, HeaderEnd, Block;
    BlockEnd([line], rest);
    HeadOfBlock(line, []);
    assert FieldsOfLines([]) == [] && FirstHeaders([]) == [];
    assert [line] + [] == [line];
  }

  lemma OneLineBlock(line: string)
    requires line == "GET / HTTP/1.1"
    ensures Block([line]) == "GET / HTTP/1.1\r\n\r\n" && |Block([line])| == 18
  {
    assert [line][1..] == [] && Block([]) == CRLF;
    assert line + CRLF + CRLF == "GET / HTTP/1.1\r\n\r\n";
  }

  // Status lines

  lemma NextDigit(m: nat, d: nat)
    requires m > 0 && d < 10
    ensures Digits(10 * m + d, 10) == Digits(m, 10) + [DigitChar(d)]
  {
    LowerDigit(d);
    TenDigits(DigitChar(d));
    OneMoreDigit(m, DigitChar(d));
  }

  lemma ThreeDigits(a: nat, b: nat, c: nat)
    requires 0 < a < 10 && b < 10 && c < 10
    ensures Digits(100 * a + 10 * b + c, 10) == [DigitChar(a), DigitChar(b), DigitChar(c)]
  {
    hide *;
    OneDigit(a);
    NextDigit(a, b);
    NextDigit(10 * a + b, c);
    assert 10 * (10 * a + b) + c == 100 * a + 10 * b + c;
  }

  lemma OneDigit(a: nat)
    requires a < 10
    ensures Digits(a, 10) == [DigitChar(a)]
  {}

  lemma LineOf(a: nat, b: nat, c: nat)
    requires 0 < a < 10 && b < 10 && c < 10 && !(a == 2 && b == 0 && c == 0)
    ensures var n: int := 100 * a + 10 * b + c;
            StatusLine(n) == "HTTP/1.1 " + ([DigitChar(a), DigitChar(b), DigitChar(c)] + " " + StatusText(n))
  {
    ThreeDigits(a, b, c);
    hide Digits, DigitChar, StatusText;
  }

  /** The reason phrases that appear on the wire. */
  lemma SuccessLines()
    ensures StatusLine(200) == "HTTP/1.1 200 OK"
    ensures StatusLine(101) == "HTTP/1.1 " + ("101" + " " + "Switching Protocols")
    ensures StatusLine(201) == "HTTP/1.1 " + ("201" + " " + "Created")
    ensures StatusLine(204) == "HTTP/1.1 " + ("204" + " " + "No Content")
  {
    assert StatusLine(200) == "HTTP/1.1 200 OK";
    hide StatusLine, Digits;
    LineOf(1, 0, 1);
    LineOf(2, 0, 1);
    LineOf(2, 0, 4);
  }

  lemma RedirectLines()
    ensures StatusLine(301) == "HTTP/1.1 " + ("301" + " " + "Moved Permanently")
    ensures StatusLine(302) == "HTTP/1.1 " + ("302" + " " + "Found")
    ensures StatusLine(304) == "HTTP/1.1 " + ("304" + " " + "Not Modified")
  {
    hide StatusLine, Digits;
    LineOf(3, 0, 1);
    LineOf(3, 0, 2);
    LineOf(3, 0, 4);
  }

  lemma ClientErrorLines()
    ensures StatusLine(400) == "HTTP/1.1 " + ("400" + " " + "Bad Request")
    ensures StatusLine(401) == "HTTP/1.1 " + ("401" + " " + "Unauthorized")
    ensures StatusLine(403) == "HTTP/1.1 " + ("403" + " " + "Forbidden")
  {
    hide StatusLine, Digits;
    LineOf(4, 0, 0);
    LineOf(4, 0, 1);
    LineOf(4, 0, 3);
  }

  lemma NotFoundLines()
    ensures StatusLine(404) == "HTTP/1.1 " + ("404" + " " + "Not Found")
    ensures StatusLine(405) == "HTTP/1.1 " + ("405" + " " + "Method Not Allowed")
  {
    hide StatusLine, Digits;
    LineOf(4, 0, 4);
    LineOf(4, 0, 5);
  }

  lemma MoreErrorLines()
    ensures StatusLine(408) == "HTTP/1.1 " + ("408" + " " + "Request Timeout")
    ensures StatusLine(413) == "HTTP/1.1 " + ("413" + " " + "Payload Too Large")
  {
    hide StatusLine, Digits;
    LineOf(4, 0, 8);
    LineOf(4, 1, 3);
  }

  lemma OtherLines()
    ensures StatusLine(429) == "HTTP/1.1 " + ("429" + " " + "Too Many Requests")
    ensures StatusLine(418) == "HTTP/1.1 " + ("418" + " " + "Unknown")
  {
    hide StatusLine, Digits;
    LineOf(4, 2, 9);
    LineOf(4, 1, 8);
  }

  lemma ServerErrorLines()
    ensures StatusLine(500) == "HTTP/1.1 " + ("500" + " " + "Internal Server Error")
    ensures StatusLine(502) == "HTTP/1.1 " + ("502" + " " + "Bad Gateway")
    ensures StatusLine(503) == "HTTP/1.1 " + ("503" + " " + "Service Unavailable")
  {
    hide StatusLine, Digits;
    LineOf(5, 0, 0);
    LineOf(5, 0, 2);
    LineOf(5, 0, 3);
  }

  // Base64

  /** The alphabet of section 4 of RFC 4648: where each run of it begins and ends, and that runs have no gaps. */
  lemma Alphabet(k: nat)
    requires k < 63
    ensures Symbol(0) == 'A' && Symbol(25) == 'Z' && Symbol(26) == 'a' && Symbol(51) == 'z'
    ensures Symbol(52) == '0' && Symbol(61) == '9' && Symbol(62) == '+' && Symbol(63) == '/'
    ensures k !in {25, 51, 61, 62} ==> Symbol(k + 1) as int == Symbol(k) as int + 1
  {}

  lemma Base64Tests()
    ensures Encoded([0x41]) == "QQ==" && Encoded([0x41, 0x42]) == "QUI=" && Encoded([0x41, 0x42, 0x43]) == "QUJD"
  {
    assert [0x41, 0x42, 0x43][3..] == [];
  }

  // Chunks

  lemma ChunkTests()
    ensures Chunk("hello") == "5\r\n" + "hello" + "\r\n"
    ensures Chunk("0123456789") == "a\r\n" + "0123456789" + "\r\n"
    ensures LAST_CHUNK == "0\r\n\r\n"
  {
    DigitsSpelled(5);
    DigitsSpelled(10);
  }

  // Query strings

  /** `flag&key=val`, `expr=a=b` and `q=hello+world`. */
  lemma QueryTests()
    ensures QueryPairs("flag" + ['&'] + "k=v") == [(UrlDecoded("flag"), "")] + QueryPairs("k=v")
    ensures QueryPairs("expr" + ("=" + "a=b")) == [(UrlDecoded("expr"), UrlDecoded("a=b"))]
    ensures QueryPairs("q" + ("=" + "hi+you")) == [(UrlDecoded("q"), UrlDecoded("hi+you"))]
    ensures UrlDecoded("hi" + ("+" + "you")) == "hi" + " " + "you"
  {
    hide UrlDecoded;
    FirstEquals("expr", "a=b");
    FirstEquals("q", "hi+you");
    FirstOfTwo("flag", "k=v");
    PlainText("hi", "+" + "you");
    PlusIsSpace("you");
    NothingToDecode("you");
    assert "hi" + (" " + "you") == "hi" + " " + "you";
  }

  lemma FirstOfTwo(name: string, rest: string)
    requires name != "" && '=' !in name && '&' !in name
    ensures QueryPairs(name + ['&'] + rest) == [(UrlDecoded(name), "")] + QueryPairs(rest)
  {
    hide UrlDecoded;
    SplitAt(name, '&', rest);
    NotFound(name, '=');
  }

  /** Text without escapes and plus signs stays, whatever follows. */
  lemma {:induction false} PlainText(s: string, t: string)
    requires '%' !in s && '+' !in s
    ensures UrlDecoded(s + t) == s + UrlDecoded(t)
  {
    hide UrlDecoded, IsEscape;
    if s == "" {
      assert s + t == t && s + UrlDecoded(t) == UrlDecoded(t);
    } else {
      var c, u := s[0], s[1..] + t;
      assert c in s && s == [c] + s[1..];
      PlainText(s[1..], t);
      EscapeExactly([c] + u);
      OthersStay(c, u);
      Regroup([c], s[1..], t);
      Regroup([c], s[1..], UrlDecoded(t));
    }
  }

  // Patterns

  lemma IntPattern()
    ensures PatternOf("/users" + ("/<int:id>" + "")) == [Literal("users"), IntParam("id")]
  {
    hide PatternOf, Path, Typed;
    var pattern := [Literal("users"), IntParam("id")];
    TypedText("int", "id");
    PatternRoundTrip(pattern);
    TwoTexts(pattern);
    TwoPieces("users", Typed("int", "id"));
    assert "<" + "int" + ":" + "id" + ">" == "<int:id>";
    assert "/" + "users" == "/users" && "/" + "<int:id>" == "/<int:id>";
  }

  lemma StringSegments()
    ensures SegmentOf("<string:name>") == StrParam("name") && SegmentOf("<name>") == StrParam("name")
  {
    hide SegmentOf, Typed;
    TypedText("string", "name");
    TypedRoundTrip("string", "name");
    UntypedRoundTrip("name");
    assert "<" + "string" + ":" + "name" + ">" == "<string:name>";
    assert "<" + ("name" + ">") == "<name>";
  }

  lemma RootPattern()
    ensures PatternOf("/") == []
  {
    hide Parts;
    SlashesIgnored("", "");
    PartsEmpty();
    assert "/" + "" == "/";
  }

  lemma TypedText(kind: string, name: string)
    ensures Typed(kind, name) == "<" + kind + ":" + name + ">"
  {
    Regroup("<", kind, ":" + (name + ">"));
    Regroup("<" + kind, ":", name + ">");
    Regroup("<" + kind + ":", name, ">");
  }

  lemma TwoTexts(pattern: seq<Segment>)
    requires |pattern| == 2
    ensures Texts(pattern) == [SegmentText(pattern[0]), SegmentText(pattern[1])]
  {}

  lemma TwoPieces(a: string, b: string)
    ensures Path([a, b]) == ("/" + a) + (("/" + b) + "")
  {
    assert Path([]) == "";
    assert [b][1..] == [] && Path([b]) == "/" + (b + "");
    assert [a, b][1..] == [b] && Path([a, b]) == "/" + (a + Path([b]));
    hide Path;
    Regroup("/", b, "");
    Regroup("/", a, "/" + (b + ""));
  }

  // Multipart

  const UPLOAD: seq<Part> := [Part("doc", "readme.txt", "text/plain", "Hello World!")]

  /** A file upload as it is sent. */
  lemma UploadText()
    ensures FormText(UPLOAD, "B", "\r\n")
         == "--B" + ("\r\n" + (("Content-Disposition: form-data; name=\"" + ("doc" + ("\"; filename=\"" + ("readme.txt" + "\""))))
            + ("\r\nContent-Type: " + "text/plain")
            + ("\r\n\r\n" + ("Hello World!" + ("\r\n" + ("--B" + ("--" + "\r\n")))))))
  {
    var p := UPLOAD[0];
    assert UPLOAD[1..] == [] && "--" + "B" == "--B";
    assert Rest([], "--B", "\r\n") == "--" + "\r\n";
    UploadHeaders();
    hide HeadersText;
    assert Rest(UPLOAD, "--B", "\r\n")
        == "\r\n" + (HeadersText(p) + ("\r\n\r\n" + (p.data + ("\r\n" + ("--B" + Rest([], "--B", "\r\n"))))));
    hide Rest;
  }

  lemma UploadHeaders()
    ensures HeadersText(UPLOAD[0])
         == ("Content-Disposition: form-data; name=\"" + ("doc" + ("\"; filename=\"" + ("readme.txt" + "\""))))
            + ("\r\nContent-Type: " + "text/plain")
  {
    assert "readme.txt" != "" && "text/plain" != "";
  }

  /** And what the parser makes of it. */
  lemma UploadRead()
    ensures Parsed(FormText(UPLOAD, "B", "\r\n"), "B")
         == Form(map[], map["doc" := FormFile("readme.txt", "text/plain", "Hello World!")])
  {
    hide FormText, Parsed;
    UploadPrintable();
    FormRoundTrip(UPLOAD, "B", "\r\n");
    assert UPLOAD[1..] == [];
  }

  lemma UploadPrintable()
    ensures forall p :: p in UPLOAD ==> MultipartPrinting.Printable(p, "--B")
    ensures '\r' !in "B" && "--" + "B" == "--B"
  {
    var p := UPLOAD[0];
    ShortText("doc", TYPE_KEY);
    ShortText("readme.txt", TYPE_KEY);
    ShortText("Hello World!", "--B");
    assert !EndsIn("doc", LURE);
  }

  lemma ShortText(s: string, key: string)
    requires |s| < |key| || (key != "" && key[0] !in s)
    ensures Lacks(s, key)
  {
    forall j: nat ensures !Occurs(s, key, j) {
      if j < |s| && key != "" {
        assert s[j] in s;
        if |s| >= |key| {
          Mismatch(s, key, j, 0);
        }
      }
    }
  }
}
