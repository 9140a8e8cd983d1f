/** Http/httpContent.cc: the line-driven state machine, independent of how the input is cut into reads. */
module HttpContent {
  import opened Options
  import opened HttpRequest
  import opened Buffer
  import opened Sequences

  const CRLF := "\r\n"

  /** `Body` and `Errno` are never assigned; a parser in one of them would loop for ever. */
  datatype ParseState = RequestLine | RequestHeader | Body | GotCompleteRequest | Errno

  datatype Parser = Parser(state: ParseState, request: Request)

  datatype Outcome = Fine | Failed | Thrown

  /** A parser, the bytes it has not consumed and how its last pass ended. */
  datatype Fed = Fed(parser: Parser, rest: string, outcome: Outcome)

  /** The states that the code assigns. */
  predicate Assigned(s: ParseState) {
    s != Body && s != Errno
  }

  predicate IsCrlf(s: string, i: nat) {
    i + 1 < |s| && s[i] == '\r' && s[i + 1] == '\n'
  }

  /** `std::search` for CRLF: its first position at or after `i`, or the end. */
  function FindCrlf(s: string, i: nat): (k: nat)
    requires i <= |s|
    ensures i <= k <= |s| && (forall j | i <= j < k :: !IsCrlf(s, j)) && (k < |s| ==> IsCrlf(s, k))
    decreases |s| - i
  {
    if i == |s| || IsCrlf(s, i) then i else FindCrlf(s, i + 1)
  }

  /** What one complete line does: go on, or end the pass. */
  datatype Verdict = Next | End(outcome: Outcome)

  function ReadLine(p: Parser, line: string): (q: (Parser, Verdict))
    requires p.state == RequestLine || p.state == RequestHeader
    ensures q.1 == Next ==> q.0.state == RequestHeader
    ensures q.1 == End(Fine) <==> q.0.state == GotCompleteRequest
    ensures Assigned(q.0.state)
  {
    if p.state == RequestLine then
      var (r, outcome) := ParseLine(p.request, line);
      match outcome
      case Good => (Parser(RequestHeader, r), Next)
      case Bad => (Parser(RequestLine, r), End(Failed))
      case Throws => (Parser(RequestLine, r), End(Thrown))
    else
      var colon := Find(line, ':', 0);
      if colon == |line| then (Parser(GotCompleteRequest, p.request), End(Fine))
      else (Parser(RequestHeader, ParseHeader(p.request, line, colon)), Next)
  }

  /** `ParseContent` on the unread bytes. */
  function Feed(p: Parser, buf: string): (f: Fed)
    requires Assigned(p.state)
    ensures Assigned(f.parser.state)
    decreases |buf|
  {
    var crlf := FindCrlf(buf, 0);
    if p.state == GotCompleteRequest || crlf == |buf| then Fed(p, buf, Fine)
    else
      var rest := buf[crlf + 2..];
      var (q, verdict) := ReadLine(p, buf[..crlf]);
      if verdict == Next then Feed(q, rest)
      else Fed(q, if verdict.outcome == Thrown then buf else rest, verdict.outcome)
  }

  // ---------------------------------------------------------------- chunking

  /** The pass ended because the input did. */
  predicate WantsMore(f: Fed) {
    f.outcome == Fine && f.parser.state != GotCompleteRequest
  }

  /** One more read: unless parsing has ended, the parser runs on what it left and the new bytes. */
  function Receive(f: Fed, bytes: string): (g: Fed)
    requires Assigned(f.parser.state)
    ensures Assigned(g.parser.state)
  {
    if WantsMore(f) then Feed(f.parser, f.rest + bytes) else f.(rest := f.rest + bytes)
  }

  lemma CrlfStays(a: string, b: string)
    requires FindCrlf(a, 0) < |a|
    ensures FindCrlf(a + b, 0) == FindCrlf(a, 0)
    ensures var k := FindCrlf(a, 0); (a + b)[..k] == a[..k] && (a + b)[k + 2..] == a[k + 2..] + b
  {
    var k := FindCrlf(a, 0);
    assert IsCrlf(a + b, k);
    forall j | 0 <= j < k
      ensures !IsCrlf(a + b, j)
    {
      assert !IsCrlf(a, j);
    }
  }

  /** Feeding `b` after `a` is feeding `a + b`; once a pass failed, threw or completed the request, later
      bytes only pile up behind the unread ones. */
  lemma {:induction false} FeedSplit(p: Parser, a: string, b: string)
    requires Assigned(p.state)
    ensures Feed(p, a + b) == Receive(Feed(p, a), b)
    decreases |a|
  {
    var crlf := FindCrlf(a, 0);
    if p.state != GotCompleteRequest && crlf < |a| {
      CrlfStays(a, b);
      var (q, verdict) := ReadLine(p, a[..crlf]);
      if verdict == Next {
        FeedSplit(q, a[crlf + 2..], b);
      }
    }
  }

  /** The connection after `n` reads. */
  function Stream(p: Parser, chunks: seq<string>, n: nat): (f: Fed)
    requires n <= |chunks| && Assigned(p.state)
    ensures Assigned(f.parser.state)
  {
    if n == 0 then Fed(p, "", Fine) else Receive(Stream(p, chunks, n - 1), chunks[n - 1])
  }

  /** However TCP cuts the input, the parser ends in the same state, with the same request and the same
      unread bytes as after one parse of the whole. */
  lemma {:induction false} ChunkingDoesNotMatter(p: Parser, chunks: seq<string>, n: nat)
    requires n <= |chunks| && Assigned(p.state)
    ensures Stream(p, chunks, n) == Feed(p, ConcatTo(chunks, n))
  {
    if n > 0 {
      ChunkingDoesNotMatter(p, chunks, n - 1);
      FeedSplit(p, ConcatTo(chunks, n - 1), chunks[n - 1]);
    }
  }

  lemma SuffixOfSuffix(buf: string, k: nat, rest: string)
    requires k <= |buf| && |rest| <= |buf| - k && rest == buf[k..][|buf| - k - |rest|..]
    ensures rest == buf[|buf| - |rest|..]
  {
  }

  /** A pass that wants more has read every complete line: what is left holds no CRLF. */
  lemma {:induction false} NoCompleteLineIsLeft(p: Parser, buf: string)
    requires Assigned(p.state) && WantsMore(Feed(p, buf))
    ensures var rest := Feed(p, buf).rest;
            FindCrlf(rest, 0) == |rest| && |rest| <= |buf| && rest == buf[|buf| - |rest|..]
    decreases |buf|
  {
    hide ReadLine;
    var crlf := FindCrlf(buf, 0);
    if crlf < |buf| {
      var (q, behind) := (ReadLine(p, buf[..crlf]).0, buf[crlf + 2..]);
      NoCompleteLineIsLeft(q, behind);
      SuffixOfSuffix(buf, crlf + 2, Feed(q, behind).rest);
    }
  }

  // ---------------------------------------------------------------- heads

  predicate NoCrlf(line: string) {
    forall i | 0 <= i < |line| :: !IsCrlf(line, i)
  }

  function PrintHeaders(hs: seq<Header>): string {
    if hs == [] then "" else PrintHeader(hs[0]) + CRLF + PrintHeaders(hs[1..])
  }

  /** The header map after reading the lines: the last of equal names wins. */
  function Collect(m: map<string, string>, hs: seq<Header>): map<string, string>
    decreases hs
  {
    if hs == [] then m else Collect(m[hs[0].name := hs[0].value], hs[1..])
  }

  predicate CleanHeaders(hs: seq<Header>) {
    forall h | h in hs :: CleanHeader(h) && NoCrlf(PrintHeader(h))
  }

  lemma {:induction false} LastDuplicateWins(m: map<string, string>, hs: seq<Header>, k: nat)
    requires k < |hs| && forall i | k < i < |hs| :: hs[i].name != hs[k].name
    ensures hs[k].name in Collect(m, hs) && Collect(m, hs)[hs[k].name] == hs[k].value
    decreases hs
  {
    var m' := m[hs[0].name := hs[0].value];
    if k > 0 {
      LastDuplicateWins(m', hs[1..], k - 1);
    } else {
      OthersStay(m', hs[1..], hs[0].name);
    }
  }

  lemma {:induction false} OthersStay(m: map<string, string>, hs: seq<Header>, name: string)
    requires forall h | h in hs :: h.name != name
    ensures name in Collect(m, hs) <==> name in m
    ensures name in m ==> Collect(m, hs)[name] == m[name]
    decreases hs
  {
    if hs != [] {
      OthersStay(m[hs[0].name := hs[0].value], hs[1..], name);
    }
  }

  /** A line followed by CRLF is cut off exactly there, also when it ends with a bare CR. */
  lemma LineIsCut(line: string, rest: string)
    requires NoCrlf(line)
    ensures var buf := line + CRLF + rest;
            FindCrlf(buf, 0) == |line| < |buf| && buf[..|line|] == line && buf[|line| + 2..] == rest
  {
    var buf := line + CRLF + rest;
    assert IsCrlf(buf, |line|);
    forall j | 0 <= j < |line|
      ensures !IsCrlf(buf, j)
    {
      assert !IsCrlf(line, j);
      assert buf[|line|] == '\r';
    }
  }

  lemma {:induction false} HeadersParse(r: Request, hs: seq<Header>, last: string, tail: string)
    requires CleanHeaders(hs) && ':' !in last && NoCrlf(last)
    ensures Feed(Parser(RequestHeader, r), PrintHeaders(hs) + last + CRLF + tail)
            == Fed(Parser(GotCompleteRequest, r.(headers := Collect(r.headers, hs))), tail, Fine)
    decreases hs
  {
    var buf := PrintHeaders(hs) + last + CRLF + tail;
    if hs == [] {
      assert buf == last + CRLF + tail;
      LineIsCut(last, tail);
      FindIs(last, ':', 0, |last|);
    } else {
      var rest := PrintHeaders(hs[1..]) + last + CRLF + tail;
      assert buf == PrintHeader(hs[0]) + CRLF + rest;
      LineIsCut(PrintHeader(hs[0]), rest);
      PrintedHeaderParses(r, hs[0]);
      HeadersParse(r.(headers := r.headers[hs[0].name := hs[0].value]), hs[1..], last, tail);
    }
  }

  /** A printed head: request line, header lines and a closing line without a colon, usually empty. */
  function PrintHead(m: Method, path: string, query: Option<string>, v: Version, hs: seq<Header>, last: string): string
    requires v != Unknown
  {
    PrintLine(m, path, query, v) + CRLF + (PrintHeaders(hs) + last + CRLF)
  }

  predicate CleanHead(m: Method, path: string, query: Option<string>, v: Version, hs: seq<Header>, last: string) {
    && v != Unknown && CleanTarget(path, query) && NoCrlf(PrintLine(m, path, query, v))
    && CleanHeaders(hs) && ':' !in last && NoCrlf(last)
  }

  /** Round trip: printing a head and parsing it restores every component and leaves what follows unread. */
  lemma HeadRoundTrip(r: Request, m: Method, path: string, query: Option<string>, v: Version,
                      hs: seq<Header>, last: string, tail: string)
    requires CleanHead(m, path, query, v, hs, last)
    ensures Feed(Parser(RequestLine, r), PrintHead(m, path, query, v, hs, last) + tail)
            == Fed(Parser(GotCompleteRequest,
                          Request(m, v, path, if query.Some? then query.value else r.query, Collect(r.headers, hs))),
                   tail, Fine)
  {
    var line, rest := PrintLine(m, path, query, v), PrintHeaders(hs) + last + CRLF + tail;
    assert PrintHead(m, path, query, v, hs, last) + tail == line + CRLF + rest;
    LineIsCut(line, rest);
    PrintedLineParses(r, m, path, query, v);
    HeadersParse(ParseLine(r, line).0, hs, last, tail);
  }

  /** Conversely, bytes that complete the headers are printed clean headers and a closing line. */
  lemma {:induction false} CompletedHeadersArePrinted(r: Request, buf: string) returns (hs: seq<Header>, last: string)
    requires Feed(Parser(RequestHeader, r), buf).parser.state == GotCompleteRequest
    ensures CleanHeaders(hs) && ':' !in last && NoCrlf(last)
    ensures buf == PrintHeaders(hs) + last + CRLF + Feed(Parser(RequestHeader, r), buf).rest
    decreases |buf|
  {
    var crlf := FindCrlf(buf, 0);
    var line, rest := buf[..crlf], buf[crlf + 2..];
    LineHasNoCrlf(buf);
    assert buf == line + CRLF + rest;
    var colon := Find(line, ':', 0);
    if colon == |line| {
      hs, last := [], line;
    } else {
      var h := ParsedHeaderIsPrinted(r, line);
      var hs', last' := CompletedHeadersArePrinted(ParseHeader(r, line, colon), rest);
      hs, last := [h] + hs', last';
      ConsHeader(h, hs', last, Feed(Parser(RequestHeader, r), buf).rest);
    }
  }

  lemma ConsHeader(h: Header, hs: seq<Header>, last: string, rest: string)
    ensures PrintHeaders([h] + hs) + last + CRLF + rest
            == PrintHeader(h) + CRLF + (PrintHeaders(hs) + last + CRLF + rest)
  {
  }

  lemma LineHasNoCrlf(buf: string)
    requires FindCrlf(buf, 0) < |buf|
    ensures var k := FindCrlf(buf, 0); NoCrlf(buf[..k]) && buf == buf[..k] + CRLF + buf[k + 2..]
  {
    var k := FindCrlf(buf, 0);
    forall j | 0 <= j < k
      ensures !IsCrlf(buf[..k], j)
    {
      assert !IsCrlf(buf, j);
    }
    CutAt(buf, k);
  }

  lemma CutAt(buf: string, k: nat)
    requires IsCrlf(buf, k)
    ensures buf == buf[..k] + CRLF + buf[k + 2..]
  {
  }

  /** The grammar is exact: input completes a request only if it starts with a printed clean head, the one
      that the round trip then says is restored. */
  lemma CompletedRequestIsAHead(r: Request, buf: string)
      returns (query: Option<string>, hs: seq<Header>, last: string)
    requires Feed(Parser(RequestLine, r), buf).parser.state == GotCompleteRequest
    ensures var f := Feed(Parser(RequestLine, r), buf);
            var q := f.parser.request;
            && CleanHead(q.method_, q.path, query, q.version, hs, last)
            && buf == PrintHead(q.method_, q.path, query, q.version, hs, last) + f.rest
            && q.headers == Collect(r.headers, hs) && q.query == (if query.Some? then query.value else r.query)
  {
    var crlf := FindCrlf(buf, 0);
    var line, rest := buf[..crlf], buf[crlf + 2..];
    LineHasNoCrlf(buf);
    query := ParsedLineIsPrinted(r, line);
    var parsed := ParseLine(r, line).0;
    hs, last := CompletedHeadersArePrinted(parsed, rest);
    var f := Feed(Parser(RequestLine, r), buf);
    HeadersParse(parsed, hs, last, f.rest);
    HeadShape(line, PrintHeaders(hs) + last + CRLF, f.rest);
  }

  lemma HeadShape(line: string, headers: string, rest: string)
    ensures line + CRLF + (headers + rest) == line + CRLF + headers + rest
  {
  }

  // ---------------------------------------------------------------- the class

  /** `Buffer::findCRLF`, as an offset into the readable bytes. */
  method FindCRLF(buffer: Buffer<char>) returns (crlf: Option<nat>)
    requires buffer.Valid()
    ensures var s := buffer.Contents();
            crlf == if FindCrlf(s, 0) == |s| then None else Some(FindCrlf(s, 0))
  {
    var s := buffer.Peek();
    var i := 0;
    while i < |s| && !IsCrlf(s, i)
      invariant i <= |s| && FindCrlf(s, 0) == FindCrlf(s, i)
    {
      i := i + 1;
    }
    crlf := if i == |s| then None else Some(i);
  }

  class HttpContent {
    const request: HttpRequest
    var parseState: ParseState

    function View(): Parser
      reads this, request
    {
      Parser(parseState, request.View())
    }

    constructor (request: HttpRequest)
      ensures this.request == request && parseState == RequestLine
    {
      this.request := request;
      parseState := RequestLine;
    }

    /** The request line between `buf` and its CRLF. */
    method TakeRequestLine(line: string) returns (lineMore: bool, outcome: Outcome)
      requires parseState == RequestLine
      modifies this`parseState, request
      ensures (View(), if lineMore then Next else End(outcome)) == ReadLine(old(View()), line)
      ensures lineMore ==> outcome == Fine
    {
      outcome, lineMore := Fine, true;
      var parsed := request.ParseRequestLine(line);
      if parsed == Good {
        parseState := RequestHeader;
      } else if parsed == Bad {
        outcome, lineMore := Failed, false;
      } else {
        outcome, lineMore := Thrown, false;
      }
    }

    /** The header line that ends at `end`; one without a colon completes the head. */
    method TakeHeaderLine(buf: string, end: nat) returns (lineMore: bool)
      requires parseState == RequestHeader && IsCrlf(buf, end)
      modifies this`parseState, request
      ensures (View(), if lineMore then Next else End(Fine)) == ReadLine(old(View()), buf[..end])
    {
      lineMore := true;
      var colon := Find(buf[..end], ':', 0);
      if colon == end {
        parseState := GotCompleteRequest;
        lineMore := false;
      } else {
        request.ParseHeaders(buf, colon, end);
      }
    }

    /** The two branches that read the line up to the CRLF at `end`. */
    method TakeLine(buf: string, end: nat) returns (lineMore: bool, outcome: Outcome)
      requires (parseState == RequestLine || parseState == RequestHeader) && IsCrlf(buf, end)
      modifies this`parseState, request
      ensures (View(), if lineMore then Next else End(outcome)) == ReadLine(old(View()), buf[..end])
      ensures lineMore ==> outcome == Fine
    {
      outcome := Fine;
      if parseState == RequestLine {
        lineMore, outcome := TakeRequestLine(buf[..end]);
      } else {
        lineMore := TakeHeaderLine(buf, end);
      }
    }

    /** One pass of the loop of `ParseContent`. */
    method ParsePass(buffer: Buffer<char>) returns (lineMore: bool, outcome: Outcome)
      requires Assigned(parseState) && buffer.Valid()
      modifies this, request, buffer`readIdx, buffer`peak
      ensures buffer.Valid() && Assigned(parseState)
      ensures var s := old(buffer.Contents());
              var k := FindCrlf(s, 0);
              if old(parseState) == GotCompleteRequest || k == |s| then
                !lineMore && outcome == Fine && View() == old(View()) && buffer.Contents() == s
              else
                && (View(), if lineMore then Next else End(outcome)) == ReadLine(old(View()), s[..k])
                && (lineMore ==> outcome == Fine)
                && buffer.Contents() == if outcome == Thrown then s else s[k + 2..]
    {
      outcome, lineMore := Fine, false;
      if parseState != GotCompleteRequest {
        var crlf := FindCRLF(buffer);
        if crlf.Some? {
          lineMore, outcome := TakeLine(buffer.Peek(), crlf.value);
          if outcome != Thrown {
            buffer.RetrieveUntilIdx(buffer.readIdx + crlf.value + 2);
          }
        }
      }
    }

    /** `ParseContent`: consumes complete lines until one fails, the head is complete or input runs out.
        Every further pass has consumed at least the two bytes of a CRLF. */
    method ParseContent(buffer: Buffer<char>) returns (outcome: Outcome)
      requires Assigned(parseState) && buffer.Valid()
      modifies this, request, buffer`readIdx, buffer`peak
      ensures buffer.Valid() && Assigned(parseState)
      ensures Fed(View(), buffer.Contents(), outcome) == Feed(old(View()), old(buffer.Contents()))
    {
      outcome := Fine;
      var lineMore := true;
      while lineMore
        invariant Assigned(parseState) && buffer.Valid()
        invariant lineMore ==> outcome == Fine
        invariant Feed(old(View()), old(buffer.Contents()))
               == if lineMore then Feed(View(), buffer.Contents()) else Fed(View(), buffer.Contents(), outcome)
        decreases if lineMore then 1 + |buffer.Contents()| else 0
      {
        lineMore, outcome := ParsePass(buffer);
      }
    }

    method ResetContentState()
      modifies this`parseState
      ensures parseState == RequestLine
    {
      parseState := RequestLine;
    }
  }
}
