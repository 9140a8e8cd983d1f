/** The message callback of Http/httpServer.cc as a state machine: which requests are answered, and what is sent
    for them. */
module HttpServing {
  import opened Options
  import opened OutputStream
  import opened HttpRequest
  import opened HttpContent
  import opened HttpResponse
  import opened Sequences

  datatype Reply = BadRequest | Answer(request: Request, response: Response)

  /** What is sent for it. */
  function ReplyText(reply: Reply): (s: string)
    ensures |s| > 0
  {
    match reply
    case BadRequest => BAD_REQUEST
    case Answer(_, response) => ResponseText(response)
  }

  /** How parsing ended for good, if it did: with a malformed line, or with an exception that leaves the
      message callback. */
  datatype End = Open | Refused | Crashed

  /** One connection: its state, its parser, the bytes not parsed yet and what was sent. */
  datatype Serving = Serving(state: State, parser: Parser, unread: string, replies: seq<Reply>, end: End)

  function GetHeader(r: Request, name: string): string {
    if name in r.headers then r.headers[name] else ""
  }

  /** What `dealWithRequest` proposes: close on "Close", and on HTTP/1.0 unless "Keep-Alive". */
  predicate CloseAsked(r: Request) {
    GetHeader(r, "Connection") == "Close" || (r.version == Http10 && GetHeader(r, "Connection") != "Keep-Alive")
  }

  /** The response callback of the application during one message: from the request and the closing decision
      that the server proposes, the response. It may be another one at the next message. */
  type Callback = (Request, bool) -> Response

  /** A parser between two callbacks. */
  predicate Between(p: Parser) {
    Assigned(p.state) && p.state != GotCompleteRequest
  }

  lemma {:induction false} IncompleteUnlessFine(p: Parser, buf: string)
    requires Assigned(p.state)
    ensures Feed(p, buf).outcome != Fine ==> Feed(p, buf).parser.state != GotCompleteRequest
    decreases |buf|
  {
    var crlf := FindCrlf(buf, 0);
    if crlf < |buf| && p.state != GotCompleteRequest {
      var (q, verdict) := ReadLine(p, buf[..crlf]);
      if verdict == Next {
        IncompleteUnlessFine(q, buf[crlf + 2..]);
      }
    }
  }

  /** A complete request is answered, and the parser starts on the next line. */
  function AnswerStep(s: Serving, r: Request, callback: Callback): Serving {
    var response := callback(r, CloseAsked(r));
    s.(parser := Parser(RequestLine, r), replies := s.replies + [Answer(r, response)],
       state := if response.close then ShutdownState(s.state) else s.state)
  }

  function RefuseStep(s: Serving): Serving {
    s.(replies := s.replies + [BadRequest], state := ShutdownState(s.state), end := Refused)
  }

  /** `MessageCallback`, after the new bytes were put into the input buffer. */
  function ServeStep(s: Serving, callback: Callback): (s': Serving)
    requires Between(s.parser)
    ensures Between(s'.parser)
  {
    if s.state == Disconnecting || s.end == Crashed then s
    else
      var f := Feed(s.parser, s.unread);
      IncompleteUnlessFine(s.parser, s.unread);
      var s' := s.(parser := f.parser, unread := f.rest);
      if f.outcome == Thrown then s'.(end := Crashed)
      else if f.outcome == Failed then RefuseStep(s')
      else if f.parser.state == GotCompleteRequest then AnswerStep(s', f.parser.request, callback)
      else s'
  }

  function Fresh(r: Request): Serving {
    Serving(Connected, Parser(RequestLine, r), "", [], Open)
  }

  /** The connection after `n` messages. */
  function Serve(r: Request, chunks: seq<string>, callbacks: nat -> Callback, n: nat): (s: Serving)
    requires n <= |chunks|
    ensures Between(s.parser) && (s.state == Connected || s.state == Disconnecting)
    ensures s.end == Refused ==> s.state == Disconnecting
  {
    if n == 0 then Fresh(r)
    else
      var s := Serve(r, chunks, callbacks, n - 1);
      ServeStep(s.(unread := s.unread + chunks[n - 1]), callbacks(n - 1))
  }

  lemma {:induction false} CompletionConsumes(p: Parser, buf: string)
    requires Assigned(p.state)
    ensures |Feed(p, buf).rest| <= |buf|
    ensures p.state != GotCompleteRequest && Feed(p, buf).parser.state == GotCompleteRequest
            ==> |Feed(p, buf).rest| + 2 <= |buf|
    decreases |buf|
  {
    var crlf := FindCrlf(buf, 0);
    if p.state != GotCompleteRequest && crlf < |buf| {
      var (q, verdict) := ReadLine(p, buf[..crlf]);
      if verdict == Next {
        CompletionConsumes(q, buf[crlf + 2..]);
      }
    }
  }

  /** The complete requests in a stream of bytes; headers and query stay from one to the next. */
  function Requests(p: Parser, buf: string): seq<Request>
    requires Between(p)
    decreases |buf|
  {
    CompletionConsumes(p, buf);
    var f := Feed(p, buf);
    if f.parser.state != GotCompleteRequest then []
    else [f.parser.request] + Requests(Parser(RequestLine, f.parser.request), f.rest)
  }

  function Answered(replies: seq<Reply>): seq<Request> {
    if |replies| == 0 then []
    else
      var last := replies[|replies| - 1];
      Answered(replies[..|replies| - 1]) + (if last.Answer? then [last.request] else [])
  }

  /** What is left to answer if `tail` follows the bytes received so far. */
  function Waiting(s: Serving, tail: string): seq<Request>
    requires Between(s.parser)
  {
    if s.end != Open then [] else Requests(s.parser, s.unread + tail)
  }

  /** The requests that the stream holds behind `a`, by how the pass over `a` ended. */
  lemma RequestsSplit(p: Parser, a: string, b: string)
    requires Between(p)
    ensures var f := Feed(p, a);
            Requests(p, a + b)
            == if WantsMore(f) then Requests(f.parser, f.rest + b)
               else if f.outcome == Fine
                 then [f.parser.request] + Requests(Parser(RequestLine, f.parser.request), f.rest + b)
               else []
  {
    FeedSplit(p, a, b);
    IncompleteUnlessFine(p, a);
    var f, g := Feed(p, a), Feed(p, a + b);
    if WantsMore(f) {
      assert g == Feed(f.parser, f.rest + b);
    } else {
      assert g == f.(rest := f.rest + b);
    }
  }

  lemma AnsweredSnoc(replies: seq<Reply>, r: Reply)
    ensures Answered(replies + [r]) == Answered(replies) + (if r.Answer? then [r.request] else [])
  {
  }

  lemma AnswerKeepsAccount(replies: seq<Reply>, r: Request, response: Response, rest: seq<Request>)
    ensures Answered(replies + [Answer(r, response)]) + rest == Answered(replies) + ([r] + rest)
  {
  }

  lemma ServeKeepsAccount(s: Serving, callback: Callback, tail: string)
    requires Between(s.parser) && s.state != Disconnecting && s.end == Open
    ensures var s' := ServeStep(s, callback);
            Answered(s'.replies) + Waiting(s', tail) == Answered(s.replies) + Waiting(s, tail)
  {
    RequestsSplit(s.parser, s.unread, tail);
    var f := Feed(s.parser, s.unread);
    var fed := s.(parser := f.parser, unread := f.rest);
    if f.outcome == Fine && f.parser.state == GotCompleteRequest {
      var r := f.parser.request;
      AnswerKeepsAccount(s.replies, r, callback(r, CloseAsked(r)), Requests(Parser(RequestLine, r), f.rest + tail));
      assert ServeStep(s, callback) == AnswerStep(fed, r, callback);
    } else if f.outcome == Failed {
      AnsweredSnoc(s.replies, BadRequest);
      assert ServeStep(s, callback) == RefuseStep(fed);
    }
  }

  /** The requests of a stream, read from its beginning. */
  function Asked(r: Request, stream: string): seq<Request> {
    Requests(Parser(RequestLine, r), stream)
  }

  /** Those answered and those that wait. */
  function Accounted(s: Serving, tail: string): seq<Request>
    requires Between(s.parser)
  {
    Answered(s.replies) + Waiting(s, tail)
  }

  lemma ReceiveKeepsAccount(r: Request, stream: string, s: Serving, bytes: string, callback: Callback, tail: string)
    requires Between(s.parser) && (s.end == Refused ==> s.state == Disconnecting)
    requires Asked(r, stream + (bytes + tail)) == Accounted(s, bytes + tail)
    ensures Asked(r, stream + bytes + tail) == Accounted(ServeStep(s.(unread := s.unread + bytes), callback), tail)
  {
    Assoc(stream, bytes, tail);
    Assoc(s.unread, bytes, tail);
    var received := s.(unread := s.unread + bytes);
    assert Waiting(received, tail) == Waiting(s, bytes + tail);
    if s.state != Disconnecting && s.end == Open {
      ServeKeepsAccount(received, callback, tail);
    }
  }

  // ---------------------------------------------------------------- malformed lines

  lemma {:induction false} HeadersDoNotFail(p: Parser, buf: string)
    requires p.state == RequestHeader
    ensures Feed(p, buf).outcome == Fine
    decreases |buf|
  {
    var crlf := FindCrlf(buf, 0);
    if crlf < |buf| {
      var (q, verdict) := ReadLine(p, buf[..crlf]);
      if verdict == Next {
        HeadersDoNotFail(q, buf[crlf + 2..]);
      }
    }
  }

  ghost predicate PrintedBy(line: string, m: Method, path: string, query: Option<string>, v: Version) {
    v != Unknown && CleanTarget(path, query) && line == PrintLine(m, path, query, v)
  }

  /** A request line of section 3 of RFC 9112, as far as the parser knows it. */
  ghost predicate IsRequestLine(line: string) {
    exists m, path, query, v :: PrintedBy(line, m, path, query, v)
  }

  ghost predicate IsThrowing(line: string) {
    exists m, target, rest :: LateQuestionMark(line, m, target, rest)
  }

  lemma BadExactly(r: Request, line: string)
    ensures ParseLine(r, line).1 == Bad <==> !IsRequestLine(line) && !IsThrowing(line)
  {
    ThrowsExactly(r, line);
    var (parsed, outcome) := ParseLine(r, line);
    if outcome == Good {
      var query := ParsedLineIsPrinted(r, line);
      assert PrintedBy(line, parsed.method_, parsed.path, query, parsed.version);
    } else if IsRequestLine(line) {
      var m, path, query, v :| PrintedBy(line, m, path, query, v);
      PrintedLineParses(r, m, path, query, v);
    }
  }

  lemma FailsExactly(p: Parser, buf: string)
    requires Between(p)
    ensures var k := FindCrlf(buf, 0);
            && (Feed(p, buf).outcome == Failed <==>
                  p.state == RequestLine && k < |buf| && ParseLine(p.request, buf[..k]).1 == Bad)
            && (Feed(p, buf).outcome == Failed ==> k < |buf| && Feed(p, buf).rest == buf[k + 2..])
  {
    if p.state == RequestHeader {
      HeadersDoNotFail(p, buf);
    } else if FindCrlf(buf, 0) < |buf| {
      var (q, verdict) := ReadLine(p, buf[..FindCrlf(buf, 0)]);
      if verdict == Next {
        HeadersDoNotFail(q, buf[FindCrlf(buf, 0) + 2..]);
      }
    }
  }

  /** A connection that is up answers with 400 and shuts down exactly when a complete line stands where a request
      line should and is not one, unless it is a line on which the parser throws. */
  lemma RefusedExactly(s: Serving, callback: Callback)
    requires Between(s.parser) && s.state == Connected && s.end == Open
    ensures var s', k := ServeStep(s, callback), FindCrlf(s.unread, 0);
            var refused := s.parser.state == RequestLine && k < |s.unread|
                           && !IsRequestLine(s.unread[..k]) && !IsThrowing(s.unread[..k]);
            && (s'.end == Refused <==> refused)
            && (refused ==>
                  && s'.replies == s.replies + [BadRequest] && s'.state == Disconnecting
                  && s'.unread == s.unread[k + 2..])
            && (BadRequest in s'.replies ==> refused || BadRequest in s.replies)
    ensures ReplyText(BadRequest) == "HTTP/1.1 400 Bad Request\r\n\r\n"
  {
    hide IsRequestLine, IsThrowing, Feed, ParseLine;
    FailsExactly(s.parser, s.unread);
    BadExactly(s.parser.request, s.unread[..FindCrlf(s.unread, 0)]);
  }

  // ---------------------------------------------------------------- the closing decision

  /** The `Connection` header at `k` is the last one. */
  ghost predicate LastConnection(hs: seq<Header>, k: nat) {
    k < |hs| && hs[k].name == "Connection" && forall i | k < i < |hs| :: hs[i].name != "Connection"
  }

  /** What the server decides on this version and `Connection` header. */
  ghost predicate Decides(q: Request, v: Version, connection: Option<string>) {
    CloseAsked(q) <==>
      if connection.None? then v == Http10
      else connection.value == "Close" || (v == Http10 && connection.value != "Keep-Alive")
  }

  function HeaderOf(headers: map<string, string>, name: string): Option<string> {
    if name in headers then Some(headers[name]) else None
  }

  lemma HeaderDecides(q: Request)
    ensures Decides(q, q.version, HeaderOf(q.headers, "Connection"))
  {
  }

  lemma LastHeaderIsFound(m: map<string, string>, hs: seq<Header>, name: string)
    ensures forall k: nat | k < |hs| && hs[k].name == name && (forall i | k < i < |hs| :: hs[i].name != name) ::
              HeaderOf(Collect(m, hs), name) == Some(hs[k].value)
    ensures (forall h | h in hs :: h.name != name) ==> HeaderOf(Collect(m, hs), name) == HeaderOf(m, name)
  {
    forall k: nat | k < |hs| && hs[k].name == name && (forall i | k < i < |hs| :: hs[i].name != name)
      ensures HeaderOf(Collect(m, hs), name) == Some(hs[k].value)
    {
      LastDuplicateWins(m, hs, k);
    }
    if forall h | h in hs :: h.name != name {
      OthersStay(m, hs, name);
    }
  }

  /** For a printed head the last `Connection` header decides, and without one that of the request before it on
      the same connection: "Close" closes, and HTTP/1.0 closes on everything but "Keep-Alive", also on no header
      at all. */
  lemma ClosesExactly(r: Request, m: Method, path: string, query: Option<string>, v: Version,
                      hs: seq<Header>, last: string, tail: string)
    requires CleanHead(m, path, query, v, hs, last)
    ensures var q := Feed(Parser(RequestLine, r), PrintHead(m, path, query, v, hs, last) + tail).parser.request;
            && (forall k: nat | LastConnection(hs, k) :: Decides(q, v, Some(hs[k].value)))
            && ((forall h | h in hs :: h.name != "Connection") ==> Decides(q, v, HeaderOf(r.headers, "Connection")))
  {
    HeadRoundTrip(r, m, path, query, v, hs, last, tail);
    hide Feed, PrintHead, CleanHead, Collect, Decides;
    LastHeaderIsFound(r.headers, hs, "Connection");
    HeaderDecides(Request(m, v, path, if query.Some? then query.value else r.query, Collect(r.headers, hs)));
  }

  /** The same after `n` messages. */
  function AccountedAfter(r: Request, chunks: seq<string>, callbacks: nat -> Callback, n: nat,
                          tail: string): seq<Request>
  {
    if n <= |chunks| then Accounted(Serve(r, chunks, callbacks, n), tail) else []
  }

  lemma FreshIsAccounted(r: Request, chunks: seq<string>, callbacks: nat -> Callback, tail: string)
    ensures Asked(r, ConcatTo(chunks, 0) + tail) == AccountedAfter(r, chunks, callbacks, 0, tail)
  {
    assert ConcatTo(chunks, 0) + tail == tail && Fresh(r).unread + tail == tail;
    assert Answered([]) == [];
  }

  lemma NextMessageIsAccounted(r: Request, chunks: seq<string>, callbacks: nat -> Callback, n: nat, tail: string)
    requires n < |chunks|
    requires Asked(r, ConcatTo(chunks, n) + (chunks[n] + tail))
             == AccountedAfter(r, chunks, callbacks, n, chunks[n] + tail)
    ensures Asked(r, ConcatTo(chunks, n + 1) + tail) == AccountedAfter(r, chunks, callbacks, n + 1, tail)
  {
    ReceiveKeepsAccount(r, ConcatTo(chunks, n), Serve(r, chunks, callbacks, n), chunks[n], callbacks(n), tail);
    assert ConcatTo(chunks, n + 1) == ConcatTo(chunks, n) + chunks[n];
  }

  /** However the input is cut into messages, and whatever the application answers, the requests answered so far
      are the first ones of the stream, in order, none skipped and none twice; the others still wait, unless
      the stream is malformed there. */
  lemma {:induction false} AnswersFollowTheStream(r: Request, chunks: seq<string>, callbacks: nat -> Callback, n: nat,
                                                  tail: string)
    requires n <= |chunks|
    ensures Asked(r, ConcatTo(chunks, n) + tail) == AccountedAfter(r, chunks, callbacks, n, tail)
  {
    hide Asked, AccountedAfter;
    if n > 0 {
      AnswersFollowTheStream(r, chunks, callbacks, n - 1, chunks[n - 1] + tail);
      NextMessageIsAccounted(r, chunks, callbacks, n - 1, tail);
    } else {
      FreshIsAccounted(r, chunks, callbacks, tail);
    }
  }

  /** One message is worth at most one answer: a connection that is up answers the first waiting request and
      leaves the pipelined ones behind it for later messages. */
  lemma OneAnswerPerMessage(s: Serving, bytes: string, callback: Callback)
    requires Between(s.parser) && s.state == Connected && s.end == Open
    ensures var s' := ServeStep(s.(unread := s.unread + bytes), callback);
            var waiting := Requests(s.parser, s.unread + bytes);
            && Answered(s'.replies) == Answered(s.replies) + (if waiting == [] then [] else [waiting[0]])
            && (waiting != [] ==> Waiting(s', "") == waiting[1..])
  {
    var received := s.(unread := s.unread + bytes);
    var f := Feed(s.parser, received.unread);
    var fed := received.(parser := f.parser, unread := f.rest);
    IncompleteUnlessFine(s.parser, received.unread);
    FirstRequest(s.parser, received.unread);
    if f.parser.state == GotCompleteRequest {
      var r := f.parser.request;
      assert ServeStep(received, callback) == AnswerStep(fed, r, callback);
      AnsweredSnoc(s.replies, Answer(r, callback(r, CloseAsked(r))));
      assert f.rest + "" == f.rest;
    } else {
      AnsweredSnoc(s.replies, BadRequest);
    }
  }

  lemma FirstRequest(p: Parser, buf: string)
    requires Between(p)
    ensures var f := Feed(p, buf);
            Requests(p, buf) == if f.parser.state != GotCompleteRequest then []
                                else [f.parser.request] + Requests(Parser(RequestLine, f.parser.request), f.rest)
  {
  }

  /** How many requests the first messages complete, by the number of messages. */
  ghost function AskedCounts(r: Request, chunks: seq<string>): (t: seq<nat>)
    ensures |t| == |chunks| + 1 && forall i | 0 <= i <= |chunks| :: t[i] == |Asked(r, ConcatTo(chunks, i))|
  {
    seq(|chunks| + 1, i requires 0 <= i <= |chunks| => |Asked(r, ConcatTo(chunks, i))|)
  }

  /** How many of them have been answered. */
  ghost function AnsweredCounts(r: Request, chunks: seq<string>, callbacks: nat -> Callback): (a: seq<nat>)
    ensures |a| == |chunks| + 1
    ensures forall i | 0 <= i <= |chunks| :: a[i] == |Answered(Serve(r, chunks, callbacks, i).replies)|
  {
    seq(|chunks| + 1, i requires 0 <= i <= |chunks| => |Answered(Serve(r, chunks, callbacks, i).replies)|)
  }

  predicate Up(s: Serving) {
    s.state == Connected && s.end == Open
  }

  /** A connection that is up after a message was up before it. */
  lemma WasUp(s: Serving, bytes: string, callback: Callback)
    requires Between(s.parser) && (s.end == Refused ==> s.state == Disconnecting)
    requires s.state == Connected || s.state == Disconnecting
    requires Up(ServeStep(s.(unread := s.unread + bytes), callback))
    ensures Up(s)
  {
  }

  lemma UpOneBefore(r: Request, chunks: seq<string>, callbacks: nat -> Callback, n: nat)
    requires n < |chunks| && Up(Serve(r, chunks, callbacks, n + 1))
    ensures Up(Serve(r, chunks, callbacks, n))
  {
    WasUp(Serve(r, chunks, callbacks, n), chunks[n], callbacks(n));
  }

  lemma {:induction false} UpBefore(r: Request, chunks: seq<string>, callbacks: nat -> Callback, i: nat, n: nat)
    requires i <= n <= |chunks| && Up(Serve(r, chunks, callbacks, n))
    ensures Up(Serve(r, chunks, callbacks, i))
    decreases n - i
  {
    if i < n {
      UpBefore(r, chunks, callbacks, i + 1, n);
      UpOneBefore(r, chunks, callbacks, i);
    }
  }

  /** The next message is answered unless everything it completes is answered already. */
  ghost predicate Paced(a: seq<nat>, t: seq<nat>, i: nat) {
    i + 1 < |a| && i + 1 < |t| && a[i] <= t[i + 1] && a[i + 1] == if t[i + 1] == a[i] then a[i] else a[i] + 1
  }

  lemma NextAnswer(r: Request, chunks: seq<string>, callbacks: nat -> Callback, i: nat)
    requires i < |chunks| && Up(Serve(r, chunks, callbacks, i))
    ensures Paced(AnsweredCounts(r, chunks, callbacks), AskedCounts(r, chunks), i)
  {
    var s := Serve(r, chunks, callbacks, i);
    OneAnswerPerMessage(s, chunks[i], callbacks(i));
    AnswersFollowTheStream(r, chunks, callbacks, i, chunks[i]);
    assert ConcatTo(chunks, i + 1) == ConcatTo(chunks, i) + chunks[i];
  }

  lemma {:induction false} Pace(a: seq<nat>, t: seq<nat>, n: nat) returns (k: nat)
    requires n < |a| == |t| && a[0] == t[0] == 0 && forall i | 0 <= i < n :: Paced(a, t, i)
    ensures k <= n && a[n] == t[k] + (n - k) && forall j | 0 <= j <= n :: a[n] <= t[j] + (n - j)
  {
    if n == 0 {
      k := 0;
    } else {
      k := Pace(a, t, n - 1);
      assert Paced(a, t, n - 1);
      if a[n] == t[n] {
        k := n;
      }
    }
  }

  lemma NoRequestsYet(r: Request, chunks: seq<string>)
    ensures AskedCounts(r, chunks)[0] == 0
  {
    CompletionConsumes(Parser(RequestLine, r), "");
    FirstRequest(Parser(RequestLine, r), "");
  }

  /** What is left to answer after `n` messages. */
  function WaitingAfter(r: Request, chunks: seq<string>, callbacks: nat -> Callback, n: nat): seq<Request>
    requires n <= |chunks|
  {
    Waiting(Serve(r, chunks, callbacks, n), "")
  }

  /** How many answers there are after `n` messages, on a connection that is still up: the smallest number of
      requests that some first messages completed plus one for every message after them. */
  lemma AnswersKeepPace(r: Request, chunks: seq<string>, callbacks: nat -> Callback, n: nat) returns (k: nat)
    requires n <= |chunks| && Up(Serve(r, chunks, callbacks, n))
    ensures var a, t := AnsweredCounts(r, chunks, callbacks), AskedCounts(r, chunks);
            k <= n && a[n] == t[k] + (n - k) && forall j | 0 <= j <= n :: a[n] <= t[j] + (n - j)
  {
    var a, t := AnsweredCounts(r, chunks, callbacks), AskedCounts(r, chunks);
    NoRequestsYet(r, chunks);
    forall i | 0 <= i < n
      ensures Paced(a, t, i)
    {
      UpBefore(r, chunks, callbacks, i, n);
      NextAnswer(r, chunks, callbacks, i);
    }
    assert a[0] == |Answered([])| == 0;
    k := Pace(a, t, n);
  }

  /** Nothing waits after `n` messages exactly when no last few of them completed more requests than they
      are. */
  lemma NothingWaitsExactly(r: Request, chunks: seq<string>, callbacks: nat -> Callback, n: nat)
    requires n <= |chunks| && Up(Serve(r, chunks, callbacks, n))
    ensures var t := AskedCounts(r, chunks);
            |WaitingAfter(r, chunks, callbacks, n)| == 0 <==> forall j | 0 <= j <= n :: t[n] <= t[j] + (n - j)
  {
    var k := AnswersKeepPace(r, chunks, callbacks, n);
    WaitingCount(r, chunks, callbacks, n);
  }

  lemma WaitingCount(r: Request, chunks: seq<string>, callbacks: nat -> Callback, n: nat)
    requires n <= |chunks|
    ensures var a, t := AnsweredCounts(r, chunks, callbacks), AskedCounts(r, chunks);
            Serve(r, chunks, callbacks, n).end == Open ==> a[n] + |WaitingAfter(r, chunks, callbacks, n)| == t[n]
  {
    AnswersFollowTheStream(r, chunks, callbacks, n, "");
    assert ConcatTo(chunks, n) + "" == ConcatTo(chunks, n);
  }
}
