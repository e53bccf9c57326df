/** Responses: how they are serialized, and how a client finds where each one ends. */
module Response {
  import opened Prelude
  import opened Text
  import opened Numerals
  import opened HeaderBlock
  import opened Buffers

  datatype PresetContentType = NoPreset | TextPlain | TextHtml | Json

  datatype Reply = Reply(status: Int32, preset: PresetContentType, headers: seq<Field>, body: string)

  function StatusText(code: int): string {
    match code
    case 101 => "Switching Protocols"
    case 200 => "OK"
    case 201 => "Created"
    case 204 => "No Content"
    case 301 => "Moved Permanently"
    case 302 => "Found"
    case 304 => "Not Modified"
    case 400 => "Bad Request"
    case 401 => "Unauthorized"
    case 403 => "Forbidden"
    case 404 => "Not Found"
    case 405 => "Method Not Allowed"
    case 408 => "Request Timeout"
    case 413 => "Payload Too Large"
    case 429 => "Too Many Requests"
    case 500 => "Internal Server Error"
    case 502 => "Bad Gateway"
    case 503 => "Service Unavailable"
    case _ => "Unknown"
  }

  lemma SmallStatusText(code: int)
    requires code < 403
    ensures '\r' !in StatusText(code)
  {}

  lemma MiddleStatusText(code: int)
    requires 403 <= code < 429
    ensures '\r' !in StatusText(code)
  {}

  lemma LargeStatusText(code: int)
    requires code >= 429
    ensures '\r' !in StatusText(code)
  {}

  lemma NoReturnInStatusText(code: int)
    ensures '\r' !in StatusText(code)
  {
    if code < 403 {
      SmallStatusText(code);
    } else if code < 429 {
      MiddleStatusText(code);
    } else {
      LargeStatusText(code);
    }
    hide StatusText;
  }

  /** The cast of an `int` to `uint64_t`: a negative status wraps around. */
  function AsU64(v: Int32): (u: nat)
    ensures u < U64
  {
    if v < 0 then v + U64 else v
  }

  function StatusLine(status: Int32): string {
    if status == 200 then "HTTP/1.1 200 OK"
    else "HTTP/1.1 " + (Digits(AsU64(status), 10) + " " + StatusText(status))
  }

  function PresetFields(p: PresetContentType): seq<Field> {
    match p
    case NoPreset => []
    case TextPlain => [Field("Content-Type", "text/plain; charset=utf-8")]
    case TextHtml => [Field("Content-Type", "text/html; charset=utf-8")]
    case Json => [Field("Content-Type", "application/json; charset=utf-8")]
  }

  /** The header is recognised in these two spellings only. */
  predicate HasHeader(headers: seq<Field>, upper: string, lower: string) {
    exists f :: f in headers && (f.name == upper || f.name == lower)
  }

  function LengthFields(r: Reply): seq<Field> {
    if HasHeader(r.headers, "Content-Length", "content-length") then []
    else [Field("Content-Length", Digits(|r.body|, 10))]
  }

  function ConnectionFields(r: Reply): seq<Field> {
    if HasHeader(r.headers, "Connection", "connection") then []
    else [Field("Connection", "keep-alive")]
  }

  /** All header fields of a serialized response, in order. */
  function ReplyFields(r: Reply, date: string): seq<Field> {
    [Field("Server", "Lundi"), Field("Date", date)] + (PresetFields(r.preset) + (r.headers
      + (LengthFields(r) + ConnectionFields(r))))
  }

  function HeadOf(r: Reply, date: string): string {
    Block([StatusLine(r.status)] + FieldLines(ReplyFields(r, date)))
  }

  function Serialized(r: Reply, date: string): string {
    HeadOf(r, date) + r.body
  }

  lemma {:induction false} FieldLinesConcat(a: seq<Field>, b: seq<Field>)
    ensures FieldLines(a + b) == FieldLines(a) + FieldLines(b)
  {}

  function FieldsText(fields: seq<Field>): string {
    LinesText(FieldLines(fields))
  }

  lemma FieldsTextConcat(a: seq<Field>, b: seq<Field>)
    ensures FieldsText(a + b) == FieldsText(a) + FieldsText(b)
  {
    FieldLinesConcat(a, b);
    LinesTextConcat(FieldLines(a), FieldLines(b));
  }

  lemma OneField(f: Field)
    ensures FieldsText([f]) == f.name + ": " + f.value + CRLF
  {
    var l := FieldLine(f);
    assert FieldLines([f]) == [l];
    assert LinesText([l]) == l + CRLF + LinesText([]) == l + CRLF;
  }

  lemma ServerDateText(date: string)
    ensures FieldsText([Field("Server", "Lundi"), Field("Date", date)]) == "Server: Lundi\r\nDate: " + date + CRLF
  {
    var server, d := Field("Server", "Lundi"), Field("Date", date);
    FieldsTextConcat([server], [d]);
    OneField(server);
    OneField(d);
    assert [server] + [d] == [server, d];
    assert "Server: Lundi\r\nDate: " == "Server" + ": " + "Lundi" + CRLF + ("Date" + ": ");
  }

  /** The line of a preset content type. */
  function PresetText(p: PresetContentType): string {
    match p
    case NoPreset => ""
    case TextPlain => "Content-Type: " + "text/plain; charset=utf-8" + "\r\n"
    case TextHtml => "Content-Type: " + "text/html; charset=utf-8" + "\r\n"
    case Json => "Content-Type: " + "application/json; charset=utf-8" + "\r\n"
  }

  lemma TypeText(value: string)
    ensures FieldsText([Field("Content-Type", value)]) == "Content-Type: " + value + CRLF
  {
    OneField(Field("Content-Type", value));
    assert "Content-Type: " == "Content-Type" + ": ";
  }

  lemma PresetIsField(p: PresetContentType)
    ensures FieldsText(PresetFields(p)) == PresetText(p)
  {
    if p != NoPreset {
      TypeText(PresetFields(p)[0].value);
    }
  }

  lemma KeepAliveText()
    ensures FieldsText([Field("Connection", "keep-alive")]) == "Connection: keep-alive\r\n"
  {
    OneField(Field("Connection", "keep-alive"));
  }

  lemma LengthText(n: nat)
    ensures FieldsText([Field("Content-Length", Digits(n, 10))]) == "Content-Length: " + Digits(n, 10) + CRLF
  {
    OneField(Field("Content-Length", Digits(n, 10)));
    assert "Content-Length: " == "Content-Length" + ": ";
  }

  lemma OneLine(l: string)
    ensures LinesText([l]) == l + CRLF
  {
    assert LinesText([]) == "";
  }

  /** The serialized form: status line, the text of all fields, the empty line, the body. */
  lemma SerializedText(r: Reply, date: string)
    ensures Serialized(r, date)
         == StatusLine(r.status) + CRLF + FieldsText(ReplyFields(r, date)) + CRLF + r.body
  {
    var lines := FieldLines(ReplyFields(r, date));
    BlockIsLines([StatusLine(r.status)] + lines);
    LinesTextConcat([StatusLine(r.status)], lines);
    OneLine(StatusLine(r.status));
  }

  lemma FieldsPieces(a: seq<Field>, b: seq<Field>, c: seq<Field>, d: seq<Field>, e: seq<Field>)
    ensures FieldsText(a + (b + (c + (d + e))))
         == FieldsText(a) + (FieldsText(b) + (FieldsText(c) + (FieldsText(d) + FieldsText(e))))
  {
    hide *;
    FieldsTextConcat(a, b + (c + (d + e)));
    FieldsTextConcat(b, c + (d + e));
    FieldsTextConcat(c, d + e);
    FieldsTextConcat(d, e);
  }

  lemma Assoc5(was: string, a: string, b: string, c: string, d: string, e: string)
    ensures was + a + b + c + d + e == was + (a + (b + (c + (d + e))))
  {}

  lemma StatusLineText(status: Int32)
    requires status != 200
    ensures StatusLine(status) + CRLF
         == "HTTP/1.1 " + (Digits(AsU64(status), 10) + (" " + (StatusText(status) + CRLF)))
  {
    var d, t := Digits(AsU64(status), 10), StatusText(status);
    hide Digits, StatusText;
    assert d + " " + t + CRLF == d + (" " + (t + CRLF));
  }

  method WriteStatusLine(status: Int32, buf: WriteBuffer)
    requires buf.Valid()
    modifies buf, buf.data
    ensures buf.Valid() && (buf.data == old(buf.data) || fresh(buf.data))
    ensures buf.Contents() == old(buf.Contents()) + (StatusLine(status) + CRLF)
  {
    if status == 200 {
      buf.AppendAll("HTTP/1.1 200 OK\r\n");
      assert "HTTP/1.1 200 OK\r\n" == "HTTP/1.1 200 OK" + CRLF;
    } else {
      StatusLineText(status);
      hide StatusText, Digits, StatusLine, Step, Amortised;
      ghost var was := buf.Contents();
      ghost var d, t := Digits(AsU64(status), 10), StatusText(status);
      var itoa := new FastItoa();
      buf.AppendAll("HTTP/1.1 ");
      var s := itoa.Format(AsU64(status));
      buf.AppendAll(itoa.buf[s..s + itoa.len]);
      buf.PushOne(' ');
      buf.AppendAll(StatusText(status));
      buf.AppendAll("\r\n");
      Assoc5(was, "HTTP/1.1 ", d, " ", t, "\r\n");
    }
  }

  /** The four appends of one custom header. */
  method AppendField(buf: WriteBuffer, f: Field)
    requires buf.Valid()
    modifies buf, buf.data
    ensures buf.Valid() && (buf.data == old(buf.data) || fresh(buf.data))
    ensures buf.Contents() == old(buf.Contents()) + (f.name + ": " + f.value + CRLF)
  {
    hide Step, Amortised;
    ghost var was := buf.Contents();
    buf.AppendAll(f.name);
    buf.AppendAll(": ");
    buf.AppendAll(f.value);
    buf.AppendAll("\r\n");
    Regroup(was, f.name, ": ");
    Regroup(was, f.name + ": ", f.value);
    Regroup(was, f.name + ": " + f.value, CRLF);
  }

  lemma OneMoreHeader(headers: seq<Field>, i: nat, upper: string, lower: string)
    requires i < |headers|
    ensures HasHeader(headers[..i + 1], upper, lower)
        <==> HasHeader(headers[..i], upper, lower) || headers[i].name == upper || headers[i].name == lower
  {
    var some := headers[..i + 1];
    assert some == headers[..i] + [headers[i]];
    assert forall f :: f in some <==> f in headers[..i] || f == headers[i];
  }

  lemma OneMoreField(was: string, headers: seq<Field>, i: nat)
    requires i < |headers|
    ensures was + FieldsText(headers[..i + 1])
         == was + FieldsText(headers[..i]) + (headers[i].name + ": " + headers[i].value + CRLF)
  {
    FieldsTextConcat(headers[..i], [headers[i]]);
    OneField(headers[i]);
    assert headers[..i + 1] == headers[..i] + [headers[i]];
    hide FieldsText;
    Regroup(was, FieldsText(headers[..i]), FieldsText([headers[i]]));
  }

  /** The custom headers; reports whether a Content-Length and a Connection header was among them. */
  method WriteCustomHeaders(headers: seq<Field>, buf: WriteBuffer) returns (hasCl: bool, hasConn: bool)
    requires buf.Valid()
    modifies buf, buf.data
    ensures buf.Valid() && (buf.data == old(buf.data) || fresh(buf.data))
    ensures buf.Contents() == old(buf.Contents()) + FieldsText(headers)
    ensures hasCl == HasHeader(headers, "Content-Length", "content-length")
    ensures hasConn == HasHeader(headers, "Connection", "connection")
  {
    ghost var was := buf.Contents();
    hasCl, hasConn := false, false;
    var i := 0;
    assert FieldsText([]) == "" && was + "" == was;
    assert headers[..0] == [];
    hide HasHeader, FieldsText;
    while i < |headers|
      invariant 0 <= i <= |headers|
      invariant buf.Valid() && (buf.data == old(buf.data) || fresh(buf.data))
      invariant buf.Contents() == was + FieldsText(headers[..i])
      invariant hasCl == HasHeader(headers[..i], "Content-Length", "content-length")
      invariant hasConn == HasHeader(headers[..i], "Connection", "connection")
    {
      var k := headers[i].name;
      OneMoreHeader(headers, i, "Content-Length", "content-length");
      OneMoreHeader(headers, i, "Connection", "connection");
      OneMoreField(was, headers, i);
      if k == "Content-Length" || k == "content-length" {
        hasCl := true;
      }
      if k == "Connection" || k == "connection" {
        hasConn := true;
      }
      AppendField(buf, headers[i]);
      i := i + 1;
    }
    assert headers[..i] == headers;
  }

  method WriteServerAndDate(date: string, buf: WriteBuffer)
    requires buf.Valid()
    modifies buf, buf.data
    ensures buf.Valid() && (buf.data == old(buf.data) || fresh(buf.data))
    ensures buf.Contents() == old(buf.Contents()) + FieldsText([Field("Server", "Lundi"), Field("Date", date)])
  {
    ghost var was := buf.Contents();
    ServerDateText(date);
    hide FieldsText, Step, Amortised;
    buf.AppendAll("Server: Lundi\r\nDate: ");
    buf.AppendAll(date);
    buf.AppendAll("\r\n");
    Regroup(was + "Server: Lundi\r\nDate: ", date, CRLF);
    Regroup(was, "Server: Lundi\r\nDate: ", date + CRLF);
  }

  method WriteContentLength(n: nat, buf: WriteBuffer)
    requires buf.Valid() && n < U64
    modifies buf, buf.data
    ensures buf.Valid() && (buf.data == old(buf.data) || fresh(buf.data))
    ensures buf.Contents() == old(buf.Contents()) + FieldsText([Field("Content-Length", Digits(n, 10))])
  {
    ghost var was := buf.Contents();
    LengthText(n);
    hide FieldsText, Digits, Step, Amortised;
    ghost var d := Digits(n, 10);
    var itoa := new FastItoa();
    buf.AppendAll("Content-Length: ");
    var cl := itoa.Format(n);
    buf.AppendAll(itoa.buf[cl..cl + itoa.len]);
    buf.AppendAll("\r\n");
    Regroup(was + "Content-Length: ", d, CRLF);
    Regroup(was, "Content-Length: ", d + CRLF);
    Regroup("Content-Length: ", d, CRLF);
  }

  lemma Assemble(was: string, a: string, b: string, c: string, d: string, e: string, f: string, g: string, h: string)
    ensures was + a + b + c + d + e + f + g + h == was + (a + (b + (c + (d + (e + f)))) + g + h)
  {
    Assoc5(was + a, b, c, d, e, f);
    Regroup(was, a, b + (c + (d + (e + f))));
    Regroup(was, a + (b + (c + (d + (e + f)))), g);
    Regroup(was, a + (b + (c + (d + (e + f)))) + g, h);
  }

  lemma SerializedPieces(was: string, r: Reply, date: string)
    ensures was + (StatusLine(r.status) + CRLF) + FieldsText([Field("Server", "Lundi"), Field("Date", date)])
          + PresetText(r.preset) + FieldsText(r.headers) + FieldsText(LengthFields(r))
          + FieldsText(ConnectionFields(r)) + CRLF + r.body
         == was + Serialized(r, date)
  {
    var sd := [Field("Server", "Lundi"), Field("Date", date)];
    var p, l, c := PresetFields(r.preset), LengthFields(r), ConnectionFields(r);
    SerializedText(r, date);
    assert ReplyFields(r, date) == sd + (p + (r.headers + (l + c)));
    hide *;
    FieldsPieces(sd, p, r.headers, l, c);
    PresetIsField(r.preset);
    Assemble(was, StatusLine(r.status) + CRLF, FieldsText(sd), FieldsText(p), FieldsText(r.headers),
             FieldsText(l), FieldsText(c), CRLF, r.body);
  }

  lemma NoFieldsText()
    ensures FieldsText([]) == ""
  {}

  /** The status line and every field that does not depend on the custom headers. */
  method WriteFirstFields(r: Reply, date: string, buf: WriteBuffer)
    requires buf.Valid()
    modifies buf, buf.data
    ensures buf.Valid() && (buf.data == old(buf.data) || fresh(buf.data))
    ensures buf.Contents() == old(buf.Contents()) + (StatusLine(r.status) + CRLF)
          + FieldsText([Field("Server", "Lundi"), Field("Date", date)]) + PresetText(r.preset)
  {
    hide FieldsText, StatusLine, PresetText, Step, Amortised;
    WriteStatusLine(r.status, buf);
    WriteServerAndDate(date, buf);
    buf.AppendAll(PresetText(r.preset));
  }

  /** The fields added when no custom header supplies them, the empty line and the body. */
  method WriteRest(r: Reply, hasCl: bool, hasConn: bool, buf: WriteBuffer)
    requires buf.Valid() && |r.body| < U64
    requires hasCl == HasHeader(r.headers, "Content-Length", "content-length")
    requires hasConn == HasHeader(r.headers, "Connection", "connection")
    modifies buf, buf.data
    ensures buf.Valid() && (buf.data == old(buf.data) || fresh(buf.data))
    ensures buf.Contents() == old(buf.Contents()) + FieldsText(LengthFields(r)) + FieldsText(ConnectionFields(r))
          + CRLF + r.body
  {
    KeepAliveText();
    NoFieldsText();
    hide FieldsText, Digits, HasHeader, Step, Amortised;
    if !hasCl {
      WriteContentLength(|r.body|, buf);
    }
    assert buf.Contents() == old(buf.Contents()) + FieldsText(LengthFields(r));
    if !hasConn {
      buf.AppendAll("Connection: keep-alive\r\n");
    }
    buf.AppendAll("\r\n");
    if r.body != "" {
      buf.AppendAll(r.body);
    }
  }

  /** `serialize_into`: everything behind what the buffer already holds. */
  method SerializeInto(r: Reply, date: string, buf: WriteBuffer)
    requires buf.Valid() && |r.body| < U64
    modifies buf, buf.data
    ensures buf.Valid() && (buf.data == old(buf.data) || fresh(buf.data))
    ensures buf.Contents() == old(buf.Contents()) + Serialized(r, date)
  {
    SerializedPieces(buf.Contents(), r, date);
    hide Serialized, FieldsText, StatusLine, PresetText, HasHeader, LengthFields, ConnectionFields, Step, Amortised;
    WriteFirstFields(r, date, buf);
    var hasCl, hasConn := WriteCustomHeaders(r.headers, buf);
    WriteRest(r, hasCl, hasConn, buf);
  }
}
