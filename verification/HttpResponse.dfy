/** Http/httpResponse.h and Http/httpResponse.cc: the response, its text, and what a reader of the text gets back.

    The text is that of a response in section 2.1 of RFC 9112, with the source's own header names. */
module HttpResponse {
  import opened Options
  import opened HttpRequest
  import opened HttpContent
  import opened Buffer
  import LogStream

  const HTTP_VERSION := "HTTP/1.1"
  const SERVER_NAME := "Bing_muduo"
  const BAD_REQUEST := "HTTP/1.1 400 Bad Request\r\n\r\n"

  /** What the application's callback leaves in the response. */
  datatype Response = Response(statusCode: nat, statusMessage: string, body: string, bodyType: string, close: bool)

  function StatusLine(code: nat, message: string): string {
    HTTP_VERSION + " " + LogStream.Decimal(code) + " " + message
  }

  /** The header lines: a closing response has no length, and the names are the source's. */
  function HeaderText(r: Response): string {
    if r.close then "Connection: close" + CRLF
    else
      "Content_Length: " + LogStream.Decimal(|r.body|) + CRLF
      + "Connection: Keep-Alive" + CRLF + "Content_Type: " + r.bodyType + CRLF + "Server: " + SERVER_NAME + CRLF
  }

  function ResponseText(r: Response): (s: string)
    ensures |s| > 0
  {
    StatusLine(r.statusCode, r.statusMessage) + CRLF + HeaderText(r) + CRLF + r.body
  }

  /** `AppendToBuffer`. */
  method AppendToBuffer(r: Response, buffer: Buffer<char>)
    requires buffer.Valid()
    modifies buffer, buffer.store
    ensures buffer.Valid() && buffer.Contents() == old(buffer.Contents()) + ResponseText(r)
    ensures buffer.store == old(buffer.store) || fresh(buffer.store)
  {
    var message := HTTP_VERSION + " " + LogStream.Decimal(r.statusCode) + " " + r.statusMessage + CRLF;
    if r.close {
      message := message + ("Connection: close" + CRLF);
    } else {
      message := message + ("Content_Length: " + LogStream.Decimal(|r.body|) + CRLF
                            + "Connection: Keep-Alive" + CRLF + "Content_Type: " + r.bodyType + CRLF
                            + "Server: " + SERVER_NAME + CRLF);
    }
    message := message + CRLF;
    message := message + r.body;
    assert message == ResponseText(r);
    buffer.Append(message);
  }

  // ---------------------------------------------------------------- a reader

  /** The head of a response. */
  datatype Head = Head(version: string, statusCode: nat, statusMessage: string, fields: map<string, string>)

  /** A head and what follows it. */
  datatype Received = Received(head: Head, rest: string)

  predicate IsNumber(s: string) {
    s != [] && forall c | c in s :: LogStream.IsDigit(c)
  }

  /** Up to the first space the version, up to the second the status code, and then the message. */
  function ReadStatus(line: string): Option<Head> {
    var first := Find(line, ' ', 0);
    if first == |line| then None
    else
      var second := Find(line, ' ', first + 1);
      if second == |line| || !IsNumber(line[first + 1..second]) then None
      else Some(Head(line[..first], LogStream.Value(line[first + 1..second]), line[second + 1..], map[]))
  }

  function WithoutSpaces(s: string): string {
    s[SkipSpaces(s, 0)..]
  }

  /** Field lines up to the empty line: a name, a colon and, behind spaces, the value. */
  function ReadFields(head: Head, text: string): (read: Option<Received>)
    ensures read.Some? ==> |read.value.rest| < |text|
    decreases |text|
  {
    var k := FindCrlf(text, 0);
    if k == |text| then None
    else if k == 0 then Some(Received(head, text[2..]))
    else
      var colon := Find(text[..k], ':', 0);
      if colon == k then None
      else ReadFields(head.(fields := head.fields[text[..colon] := WithoutSpaces(text[colon + 1..k])]), text[k + 2..])
  }

  function ReadResponse(text: string): (read: Option<Received>)
    ensures read.Some? ==> |read.value.rest| < |text|
  {
    var k := FindCrlf(text, 0);
    if k == |text| || ReadStatus(text[..k]).None? then None
    else ReadFields(ReadStatus(text[..k]).value, text[k + 2..])
  }

  // ---------------------------------------------------------------- lines read back

  lemma NoSpaceInNumber(s: string)
    requires LogStream.Canonical(s)
    ensures IsNumber(s) && ' ' !in s
  {
  }

  lemma FindBehind(a: string, b: string, c: string, x: char)
    requires x !in b && c != [] && c[0] == x
    ensures Find(a + b + c, x, |a|) == |a| + |b|
  {
    var s := a + b + c;
    assert forall j | |a| <= j < |a| + |b| :: s[j] == b[j - |a|];
    FindIs(s, x, |a|, |a| + |b|);
  }

  lemma StatusReadsBack(code: nat, message: string)
    ensures ReadStatus(StatusLine(code, message)) == Some(Head("HTTP/1.1", code, message, map[]))
  {
    var number, line := LogStream.Decimal(code), StatusLine(code, message);
    LogStream.ValueOfDecimal(code);
    NoSpaceInNumber(number);
    assert line == [] + HTTP_VERSION + (" " + number + " " + message);
    FindBehind([], HTTP_VERSION, " " + number + " " + message, ' ');
    assert line == (HTTP_VERSION + " ") + number + (" " + message);
    FindBehind(HTTP_VERSION + " ", number, " " + message, ' ');
    var first, second := |HTTP_VERSION|, |HTTP_VERSION| + 1 + |number|;
    assert line[..first] == HTTP_VERSION && line[first + 1..second] == number && line[second + 1..] == message;
  }

  lemma {:induction false} SpaceIsSkipped(s: string, i: nat)
    requires i <= |s|
    ensures SkipSpaces(" " + s, i + 1) == SkipSpaces(s, i) + 1
    decreases |s| - i
  {
    if i < |s| && s[i] == ' ' {
      SpaceIsSkipped(s, i + 1);
    }
  }

  lemma NoCrlfBehind(a: string, b: string)
    requires '\r' !in a && NoCrlf(b)
    ensures NoCrlf(a + b)
  {
    forall i | 0 <= i < |a + b|
      ensures !IsCrlf(a + b, i)
    {
      if i >= |a| {
        assert !IsCrlf(b, i - |a|);
      }
    }
  }

  lemma FieldHasNoCrlf(name: string, value: string)
    requires NoCrlf(value) && '\r' !in name
    ensures NoCrlf(FieldLine(name, value))
  {
    NoCrlfBehind(name + ": ", value);
  }

  lemma FieldIsRead(head: Head, text: string, k: nat, colon: nat)
    requires 0 < k < |text| && FindCrlf(text, 0) == k && Find(text[..k], ':', 0) == colon < k
    ensures ReadFields(head, text)
            == ReadFields(head.(fields := head.fields[text[..colon] := WithoutSpaces(text[colon + 1..k])]),
                          text[k + 2..])
  {
  }

  /** A field line is read, and reading goes on behind it. */
  lemma FieldReadsBack(head: Head, name: string, value: string, behind: string)
    requires NoCrlf(value) && ':' !in name && '\r' !in name
    ensures ReadFields(head, FieldLine(name, value) + CRLF + behind)
            == ReadFields(head.(fields := head.fields[name := WithoutSpaces(value)]), behind)
  {
    hide ReadFields, NoCrlf;
    var line := FieldLine(name, value);
    FieldHasNoCrlf(name, value);
    LineIsCut(line, behind);
    FieldPieces(name, value, behind);
    FieldIsRead(head, line + CRLF + behind, |line|, |name|);
    LeadingSpace(value);
  }

  lemma FieldPieces(name: string, value: string, behind: string)
    requires ':' !in name
    ensures var text, k := FieldLine(name, value) + CRLF + behind, |FieldLine(name, value)|;
            && text[..k] == FieldLine(name, value) && Find(text[..k], ':', 0) == |name|
            && text[..|name|] == name && text[|name| + 1..k] == " " + value
  {
    assert FieldLine(name, value) == [] + name + (": " + value);
    FindBehind([], name, ": " + value, ':');
  }

  lemma LeadingSpace(value: string)
    ensures WithoutSpaces(" " + value) == WithoutSpaces(value)
  {
    SpaceIsSkipped(value, 0);
  }

  lemma EmptyLineEndsHead(head: Head, rest: string)
    ensures ReadFields(head, CRLF + rest) == Some(Received(head, rest))
  {
    LineIsCut("", rest);
    assert "" + CRLF + rest == CRLF + rest;
  }

  // ---------------------------------------------------------------- the fields read back

  /** What the header lines say. */
  ghost predicate FieldsFit(fields: map<string, string>, r: Response) {
    if r.close then fields == map["Connection" := "close"]
    else
      && fields.Keys == {"Content_Length", "Connection", "Content_Type", "Server"}
      && IsNumber(fields["Content_Length"]) && LogStream.Value(fields["Content_Length"]) == |r.body|
      && fields["Connection"] == "Keep-Alive"
      && fields["Content_Type"] == WithoutSpaces(r.bodyType) && fields["Server"] == "Bing_muduo"
  }

  predicate Plain(s: string) {
    s != [] && s[0] != ' ' && '\r' !in s
  }

  lemma PlainReadsBack(s: string)
    requires Plain(s)
    ensures NoCrlf(s) && WithoutSpaces(s) == s
  {
  }

  lemma NumberReadsBack(n: nat)
    ensures NoCrlf(LogStream.Decimal(n)) && WithoutSpaces(LogStream.Decimal(n)) == LogStream.Decimal(n)
    ensures IsNumber(LogStream.Decimal(n)) && LogStream.Value(LogStream.Decimal(n)) == n
  {
    LogStream.ValueOfDecimal(n);
    var s := LogStream.Decimal(n);
    assert forall i | 0 <= i < |s| :: s[i] in s;
  }

  function FieldLine(name: string, value: string): string {
    name + ": " + value
  }

  /** The same with a name as the source writes it, and a colon and a space. */
  lemma NamedFieldReadsBack(head: Head, start: string, name: string, value: string, behind: string)
    requires start == name + ": " && NoCrlf(value) && ':' !in name && '\r' !in name
    ensures ReadFields(head, start + value + CRLF + behind)
            == ReadFields(head.(fields := head.fields[name := WithoutSpaces(value)]), behind)
  {
    FieldReadsBack(head, name, value, behind);
  }

  lemma OpenText(r: Response, rest: string)
    requires !r.close
    ensures HeaderText(r) + CRLF + rest
            == "Content_Length: " + LogStream.Decimal(|r.body|) + CRLF
               + ("Connection: " + "Keep-Alive" + CRLF
                  + ("Content_Type: " + r.bodyType + CRLF + ("Server: " + SERVER_NAME + CRLF + (CRLF + rest))))
  {
    hide LogStream.Decimal;
  }

  lemma LengthReadsBack(head: Head, n: nat, behind: string) returns (head': Head)
    requires head.fields == map[]
    ensures head' == head.(fields := map["Content_Length" := LogStream.Decimal(n)])
    ensures ReadFields(head, "Content_Length: " + LogStream.Decimal(n) + CRLF + behind) == ReadFields(head', behind)
  {
    hide ReadFields, NoCrlf, WithoutSpaces, LogStream.Decimal, LogStream.Value;
    NumberReadsBack(n);
    NamedFieldReadsBack(head, "Content_Length: ", "Content_Length", LogStream.Decimal(n), behind);
    head' := head.(fields := head.fields["Content_Length" := LogStream.Decimal(n)]);
  }

  lemma ConnectionReadsBack(head: Head, value: string, behind: string)
    requires Plain(value)
    ensures ReadFields(head, "Connection: " + value + CRLF + behind)
            == ReadFields(head.(fields := head.fields["Connection" := value]), behind)
  {
    hide ReadFields, NoCrlf, WithoutSpaces;
    PlainReadsBack(value);
    NamedFieldReadsBack(head, "Connection: ", "Connection", value, behind);
  }

  lemma TypeReadsBack(head: Head, value: string, behind: string)
    requires NoCrlf(value)
    ensures ReadFields(head, "Content_Type: " + value + CRLF + behind)
            == ReadFields(head.(fields := head.fields["Content_Type" := WithoutSpaces(value)]), behind)
  {
    hide ReadFields, NoCrlf, WithoutSpaces;
    NamedFieldReadsBack(head, "Content_Type: ", "Content_Type", value, behind);
  }

  lemma ServerReadsBack(head: Head, rest: string)
    ensures ReadFields(head, "Server: " + SERVER_NAME + CRLF + (CRLF + rest))
            == Some(Received(head.(fields := head.fields["Server" := SERVER_NAME]), rest))
  {
    hide ReadFields, NoCrlf, WithoutSpaces;
    PlainReadsBack(SERVER_NAME);
    NamedFieldReadsBack(head, "Server: ", "Server", SERVER_NAME, CRLF + rest);
    EmptyLineEndsHead(head.(fields := head.fields["Server" := SERVER_NAME]), rest);
  }

  lemma OpenFieldsReadBack(head: Head, r: Response, rest: string)
    requires head.fields == map[] && !r.close && NoCrlf(r.bodyType)
    ensures ReadFields(head, HeaderText(r) + CRLF + rest)
            == Some(Received(head.(fields := map["Content_Length" := LogStream.Decimal(|r.body|)]
                                                ["Connection" := "Keep-Alive"]
                                                ["Content_Type" := WithoutSpaces(r.bodyType)]
                                                ["Server" := SERVER_NAME]), rest))
  {
    hide ReadFields, HeaderText;
    OpenText(r, rest);
    var behind3 := "Server: " + SERVER_NAME + CRLF + (CRLF + rest);
    var behind2 := "Content_Type: " + r.bodyType + CRLF + behind3;
    var head1 := LengthReadsBack(head, |r.body|, "Connection: " + "Keep-Alive" + CRLF + behind2);
    ConnectionReadsBack(head1, "Keep-Alive", behind2);
    var head2 := head1.(fields := head1.fields["Connection" := "Keep-Alive"]);
    TypeReadsBack(head2, r.bodyType, behind3);
    ServerReadsBack(head2.(fields := head2.fields["Content_Type" := WithoutSpaces(r.bodyType)]), rest);
  }

  lemma ClosingFieldsReadBack(head: Head, r: Response, rest: string)
    requires head.fields == map[] && r.close
    ensures ReadFields(head, HeaderText(r) + CRLF + rest)
            == Some(Received(head.(fields := map["Connection" := "close"]), rest))
  {
    hide ReadFields;
    assert HeaderText(r) + CRLF + rest == "Connection: " + "close" + CRLF + (CRLF + rest);
    ConnectionReadsBack(head, "close", CRLF + rest);
    EmptyLineEndsHead(head.(fields := map["Connection" := "close"]), rest);
  }

  lemma FieldsReadBack(head: Head, r: Response, rest: string)
    requires head.fields == map[] && (r.close || NoCrlf(r.bodyType))
    ensures var read := ReadFields(head, HeaderText(r) + CRLF + rest);
            && read.Some? && read.value.rest == rest && FieldsFit(read.value.head.fields, r)
            && read.value.head == head.(fields := read.value.head.fields)
  {
    hide ReadFields, HeaderText, NoCrlf, IsNumber, WithoutSpaces, LogStream.Value, LogStream.Decimal;
    if r.close {
      ClosingFieldsReadBack(head, r, rest);
    } else {
      OpenFieldsReadBack(head, r, rest);
      NumberReadsBack(|r.body|);
    }
  }

  // ---------------------------------------------------------------- main result

  /** The reader gets the status, the header lines, and behind them the body with everything that follows. */
  ghost predicate ReadsBack(r: Response, tail: string, read: Option<Received>) {
    && read.Some? && read.value.rest == r.body + tail && FieldsFit(read.value.head.fields, r)
    && read.value.head.version == "HTTP/1.1"
    && read.value.head.statusCode == r.statusCode && read.value.head.statusMessage == r.statusMessage
  }

  /** No part of the head ends its line early. */
  predicate CleanResponse(r: Response) {
    NoCrlf(r.statusMessage) && (r.close || NoCrlf(r.bodyType))
  }

  lemma StatusHasNoCrlf(code: nat, message: string)
    requires NoCrlf(message)
    ensures NoCrlf(StatusLine(code, message))
  {
    hide NoCrlf, LogStream.Decimal;
    LogStream.ValueOfDecimal(code);
    NoCrlfBehind(HTTP_VERSION + " " + LogStream.Decimal(code) + " ", message);
  }

  lemma TextShape(r: Response, tail: string)
    ensures ResponseText(r) + tail
            == StatusLine(r.statusCode, r.statusMessage) + CRLF + (HeaderText(r) + CRLF + (r.body + tail))
  {
  }

  lemma CleanResponseReadsBack(r: Response, tail: string)
    requires CleanResponse(r)
    ensures ReadsBack(r, tail, ReadResponse(ResponseText(r) + tail))
  {
    hide ReadStatus, ReadFields, StatusLine, HeaderText, ResponseText, FieldsFit, NoCrlf;
    var line := StatusLine(r.statusCode, r.statusMessage);
    TextShape(r, tail);
    StatusHasNoCrlf(r.statusCode, r.statusMessage);
    LineIsCut(line, HeaderText(r) + CRLF + (r.body + tail));
    StatusReadsBack(r.statusCode, r.statusMessage);
    FieldsReadBack(Head("HTTP/1.1", r.statusCode, r.statusMessage, map[]), r, r.body + tail);
  }

  /** Nothing that is read out of a line holds a CRLF. */
  ghost predicate OfLines(head: Head) {
    NoCrlf(head.statusMessage) && forall name | name in head.fields :: NoCrlf(head.fields[name])
  }

  lemma PartHasNoCrlf(line: string, i: nat, k: nat)
    requires NoCrlf(line) && i <= k <= |line|
    ensures NoCrlf(line[i..k])
  {
    forall j | 0 <= j < k - i
      ensures !IsCrlf(line[i..k], j)
    {
      assert !IsCrlf(line, i + j);
    }
  }

  lemma ValueHasNoCrlf(text: string, k: nat, colon: nat)
    requires FindCrlf(text, 0) == k < |text| && colon < k
    ensures NoCrlf(WithoutSpaces(text[colon + 1..k]))
  {
    LineHasNoCrlf(text);
    var value := text[colon + 1..k];
    assert value == text[..k][colon + 1..k];
    PartHasNoCrlf(text[..k], colon + 1, k);
    PartHasNoCrlf(value, SkipSpaces(value, 0), |value|);
    assert value[SkipSpaces(value, 0)..|value|] == WithoutSpaces(value);
  }

  lemma {:induction false} FieldsAreOfLines(head: Head, text: string)
    requires OfLines(head) && ReadFields(head, text).Some?
    ensures OfLines(ReadFields(head, text).value.head)
    decreases |text|
  {
    var k := FindCrlf(text, 0);
    if 0 < k < |text| {
      var colon := Find(text[..k], ':', 0);
      ValueHasNoCrlf(text, k, colon);
      FieldsAreOfLines(head.(fields := head.fields[text[..colon] := WithoutSpaces(text[colon + 1..k])]), text[k + 2..]);
    }
  }

  lemma ReadIsOfLines(text: string)
    requires ReadResponse(text).Some?
    ensures OfLines(ReadResponse(text).value.head)
  {
    hide ReadFields, NoCrlf;
    var k := FindCrlf(text, 0);
    var line := text[..k];
    LineHasNoCrlf(text);
    var second := Find(line, ' ', Find(line, ' ', 0) + 1);
    PartHasNoCrlf(line, second + 1, |line|);
    assert line[second + 1..] == line[second + 1..|line|];
    FieldsAreOfLines(ReadStatus(line).value, text[k + 2..]);
  }

  lemma SpacesHideNoCrlf(s: string)
    requires NoCrlf(WithoutSpaces(s))
    ensures NoCrlf(s)
  {
    var k := SkipSpaces(s, 0);
    forall i | 0 <= i < |s|
      ensures !IsCrlf(s, i)
    {
      if i >= k {
        assert !IsCrlf(s[k..], i - k);
      }
    }
  }

  /** Printing a response and reading the text, up to the empty line and beyond, restores the status code, the
      message, every header line with the length of the body as its number, and the body with all that follows it,
      if and only if the status message, and the body type where it is printed, hold no CRLF. */
  lemma PrintedResponseReadsBack(r: Response, tail: string)
    ensures ReadsBack(r, tail, ReadResponse(ResponseText(r) + tail)) <==> CleanResponse(r)
  {
    var read := ReadResponse(ResponseText(r) + tail);
    hide ReadResponse, ResponseText, NoCrlf, WithoutSpaces;
    if CleanResponse(r) {
      CleanResponseReadsBack(r, tail);
    } else if ReadsBack(r, tail, read) {
      ReadIsOfLines(ResponseText(r) + tail);
      assert !r.close ==> NoCrlf(read.value.head.fields["Content_Type"]);
      SpacesHideNoCrlf(r.bodyType);
    }
  }

  lemma BadRequestShape(tail: string)
    ensures BAD_REQUEST + tail == StatusLine(400, "Bad Request") + CRLF + (CRLF + tail) && NoCrlf("Bad Request")
  {
    assert LogStream.Decimal(400) == "400";
  }

  /** The answer to a malformed line is a response without header lines. */
  lemma BadRequestReadsBack(tail: string)
    ensures ReadResponse(BAD_REQUEST + tail) == Some(Received(Head("HTTP/1.1", 400, "Bad Request", map[]), tail))
  {
    var line := StatusLine(400, "Bad Request");
    BadRequestShape(tail);
    hide ReadFields, ReadStatus, StatusLine, NoCrlf;
    StatusHasNoCrlf(400, "Bad Request");
    LineIsCut(line, CRLF + tail);
    StatusReadsBack(400, "Bad Request");
    EmptyLineEndsHead(Head("HTTP/1.1", 400, "Bad Request", map[]), tail);
  }
}
