/** A whole connection of the HTTP server: what the peer sends, what is answered, and what the kernel takes.

    The message callback of HttpServing.dfy gives its replies to the output stream of OutputStream.dfy, which is
    written and shut down by other events at any time. */
module Session {
  import opened Options
  import opened Integers
  import opened Sequences
  import opened HttpRequest
  import opened HttpContent
  import opened HttpResponse
  import opened HttpServing
  import OutputStream

  /** `received` is everything the peer has sent. */
  datatype Session = Session(serving: Serving, stream: OutputStream.Stream, received: string)

  /** A message, with the response callback at that time and what `write` returns if a reply is written at once;
      or what happens to the output side in between. */
  datatype Event = Receive(bytes: string, callback: Callback, result: int) | Output(e: OutputStream.Event)

  /** The bytes of a text. */
  function Octets(text: string): (b: seq<Byte>)
    ensures |b| == |text|
  {
    seq(|text|, i requires 0 <= i < |text| => text[i] as int % 256)
  }

  /** What `send` is given for the replies, in order. */
  function Printed(replies: seq<Reply>): seq<Byte> {
    if |replies| == 0 then []
    else Printed(replies[..|replies| - 1]) + Octets(ReplyText(replies[|replies| - 1]))
  }

  lemma PrintedSnoc(replies: seq<Reply>, reply: Reply)
    ensures Printed(replies + [reply]) == Printed(replies) + Octets(ReplyText(reply))
  {
    assert (replies + [reply])[..|replies|] == replies;
  }

  function Initial(r: Request): Session {
    Session(Fresh(r), OutputStream.INITIAL, "")
  }

  /** A message callback runs only on an established connection that has not been closed. */
  predicate Hears(s: Session) {
    s.stream.state == OutputStream.Connected || s.stream.state == OutputStream.Disconnecting
  }

  /** The message callback's decision, on the state of the connection. */
  function Served(s: Session, bytes: string, callback: Callback): Serving
    requires Between(s.serving.parser)
  {
    ServeStep(s.serving.(state := s.stream.state, unread := s.serving.unread + bytes), callback)
  }

  /** A message callback replies at most once. */
  lemma AtMostOneReply(s: Session, bytes: string, callback: Callback)
    requires Between(s.serving.parser)
    ensures var replies := Served(s, bytes, callback).replies;
            replies == s.serving.replies || exists reply :: replies == s.serving.replies + [reply]
  {
  }

  /** The bytes that it gives to `send`. */
  function Sends(s: Session, bytes: string, callback: Callback): seq<Byte>
    requires Between(s.serving.parser)
  {
    var replies := Served(s, bytes, callback).replies;
    if |replies| > |s.serving.replies| then Octets(ReplyText(replies[|replies| - 1])) else []
  }

  function ReceiveStep(s: Session, bytes: string, callback: Callback, result: int): Session
    requires Between(s.serving.parser)
  {
    var serving, text := Served(s, bytes, callback), Sends(s, bytes, callback);
    var sent := if |text| > 0 then OutputStream.Step(s.stream, OutputStream.Send(text, result)) else s.stream;
    var stream := if serving.state != s.stream.state then OutputStream.Step(sent, OutputStream.Shutdown) else sent;
    Session(serving, stream, s.received + bytes)
  }

  /** The callback runs, and the kernel may return this if the reply is written at once. */
  predicate CanReceive(s: Session, bytes: string, callback: Callback, result: int)
    requires Between(s.serving.parser)
  {
    Hears(s) && (|Sends(s, bytes, callback)| > 0 ==>
                   OutputStream.Possible(s.stream, |Sends(s, bytes, callback)|, result))
  }

  /** Any event at any time; one that cannot happen changes nothing. Only message callbacks send. */
  function Step(s: Session, e: Event): (s': Session)
    requires Between(s.serving.parser)
    ensures Between(s'.serving.parser)
  {
    match e
    case Receive(bytes, callback, result) =>
      if !CanReceive(s, bytes, callback, result) then s else ReceiveStep(s, bytes, callback, result)
    case Output(o) => if o.Send? then s else s.(stream := OutputStream.Step(s.stream, o))
  }

  function RunTo(r: Request, es: seq<Event>, n: nat): (s: Session)
    requires n <= |es|
    ensures Between(s.serving.parser)
  {
    if n == 0 then Initial(r) else Step(RunTo(r, es, n - 1), es[n - 1])
  }

  function Run(r: Request, es: seq<Event>): Session {
    RunTo(r, es, |es|)
  }

  // ---------------------------------------------------------------- the output side

  ghost predicate StreamFits(s: Session) {
    && OutputStream.Inv(s.stream) && s.stream.taken + s.stream.out == s.stream.accepted
    && (s.stream.closed ==> s.stream.state == OutputStream.Disconnected && !s.stream.writing)
    && (s.serving.end == Refused ==>
          s.stream.state == OutputStream.Disconnecting || s.stream.state == OutputStream.Disconnected)
  }

  lemma OutputKeepsFits(s: Session, o: OutputStream.Event)
    requires StreamFits(s) && Between(s.serving.parser) && !o.Send?
    ensures StreamFits(Step(s, Output(o)))
  {
    OutputStream.StepKeepsInv(s.stream, o);
  }

  lemma RefusedShutsDown(s: Session, bytes: string, callback: Callback)
    requires Between(s.serving.parser) && Hears(s)
    ensures Served(s, bytes, callback).end == Refused ==>
              s.serving.end == Refused || Served(s, bytes, callback).state == OutputStream.Disconnecting
    ensures Served(s, bytes, callback).state != s.stream.state ==> s.stream.state == OutputStream.Connected
  {
  }

  lemma ReceiveKeepsFits(s: Session, bytes: string, callback: Callback, result: int)
    requires StreamFits(s) && Between(s.serving.parser) && CanReceive(s, bytes, callback, result)
    ensures StreamFits(ReceiveStep(s, bytes, callback, result))
  {
    hide Served, Sends;
    RefusedShutsDown(s, bytes, callback);
    var text := Sends(s, bytes, callback);
    var sent := if |text| > 0 then OutputStream.Step(s.stream, OutputStream.Send(text, result)) else s.stream;
    OutputStream.StepKeepsInv(s.stream, OutputStream.Send(text, result));
    OutputStream.StepKeepsInv(sent, OutputStream.Shutdown);
  }

  lemma {:induction false} RunFits(r: Request, es: seq<Event>, n: nat)
    requires n <= |es|
    ensures StreamFits(RunTo(r, es, n))
  {
    if n > 0 {
      RunFits(r, es, n - 1);
      StepFits(RunTo(r, es, n - 1), es[n - 1]);
    }
  }

  lemma StepFits(s: Session, e: Event)
    requires StreamFits(s) && Between(s.serving.parser)
    ensures StreamFits(Step(s, e))
  {
    match e {
      case Receive(bytes, callback, result) =>
        if CanReceive(s, bytes, callback, result) {
          ReceiveKeepsFits(s, bytes, callback, result);
        }
      case Output(o) => if !o.Send? { OutputKeepsFits(s, o); }
    }
  }

  // ---------------------------------------------------------------- the requests

  lemma ReceiveIsAccounted(r: Request, s: Session, bytes: string, callback: Callback, tail: string)
    requires StreamFits(s) && Between(s.serving.parser) && Hears(s)
    requires Asked(r, s.received + (bytes + tail)) == Accounted(s.serving, bytes + tail)
    ensures Asked(r, s.received + bytes + tail) == Accounted(Served(s, bytes, callback), tail)
  {
    var now := s.serving.(state := s.stream.state);
    assert Accounted(now, bytes + tail) == Accounted(s.serving, bytes + tail);
    ReceiveKeepsAccount(r, s.received, now, bytes, callback, tail);
  }

  /** What is answered and what waits follow the stream of bytes received, whatever happens to the output. */
  lemma {:induction false} RequestsFollow(r: Request, es: seq<Event>, n: nat, tail: string)
    requires n <= |es|
    ensures Asked(r, RunTo(r, es, n).received + tail) == Accounted(RunTo(r, es, n).serving, tail)
  {
    hide Asked, Accounted, StreamFits, Step, Sends;
    if n == 0 {
      FreshFollows(r, tail);
    } else {
      var s, e := RunTo(r, es, n - 1), es[n - 1];
      RunFits(r, es, n - 1);
      RequestsFollow(r, es, n - 1, Heard(s, e) + tail);
      StepFollows(r, s, e, tail);
    }
  }

  /** What an event adds to the bytes received. */
  function Heard(s: Session, e: Event): string
    requires Between(s.serving.parser)
  {
    if e.Receive? && CanReceive(s, e.bytes, e.callback, e.result) then e.bytes else ""
  }

  lemma StepFollows(r: Request, s: Session, e: Event, tail: string)
    requires StreamFits(s) && Between(s.serving.parser)
    requires Asked(r, s.received + (Heard(s, e) + tail)) == Accounted(s.serving, Heard(s, e) + tail)
    ensures Asked(r, Step(s, e).received + tail) == Accounted(Step(s, e).serving, tail)
  {
    hide Asked, Accounted, Sends, Served;
    if e.Receive? && CanReceive(s, e.bytes, e.callback, e.result) {
      ReceiveIsAccounted(r, s, e.bytes, e.callback, tail);
    } else {
      assert "" + tail == tail;
    }
  }

  lemma FreshFollows(r: Request, tail: string)
    ensures Asked(r, Initial(r).received + tail) == Accounted(Initial(r).serving, tail)
  {
    FreshIsAccounted(r, [], _ => (_, _) => Response(0, "", "", "", true), tail);
    assert ConcatTo<char>([], 0) + tail == "" + tail;
  }

  // ---------------------------------------------------------------- the bytes

  /** `send` keeps all of a text of this size: the direct write does not fail, and what it leaves fits an
      `int`. */
  predicate Whole(s: OutputStream.Stream, size: nat, result: int) {
    if OutputStream.Direct(s) then 0 <= result && size - result <= INT_MAX else size <= INT_MAX
  }

  predicate WholeAt(s: Session, e: Event)
    requires Between(s.serving.parser)
  {
    e.Receive? && CanReceive(s, e.bytes, e.callback, e.result) && |Sends(s, e.bytes, e.callback)| > 0 ==>
      Whole(s.stream, |Sends(s, e.bytes, e.callback)|, e.result)
  }

  /** Every reply of the run was kept whole. */
  predicate AllWhole(r: Request, es: seq<Event>, n: nat)
    requires n <= |es|
  {
    n > 0 ==> AllWhole(r, es, n - 1) && WholeAt(RunTo(r, es, n - 1), es[n - 1])
  }

  /** The output stream holds the printed replies, as far as they were kept. */
  ghost predicate Holds(s: Session, whole: bool) {
    && |s.stream.accepted| <= |Printed(s.serving.replies)|
    && (|s.stream.accepted| == |Printed(s.serving.replies)| <==> whole)
    && (whole ==> s.stream.accepted == Printed(s.serving.replies))
  }

  lemma SendAccepts(s: OutputStream.Stream, text: seq<Byte>, result: int) returns (k: nat)
    requires |text| > 0 && OutputStream.Possible(s, |text|, result)
    ensures k <= |text| && (k == |text| <==> Whole(s, |text|, result))
    ensures OutputStream.Step(s, OutputStream.Send(text, result)).accepted == s.accepted + text[..k]
  {
    OutputStream.StepAccepts(s, OutputStream.Send(text, result));
    k := |OutputStream.Added(s, OutputStream.Send(text, result))|;
  }

  lemma RepliesPrint(s: Session, bytes: string, callback: Callback)
    requires Between(s.serving.parser)
    ensures Printed(Served(s, bytes, callback).replies) == Printed(s.serving.replies) + Sends(s, bytes, callback)
  {
    AtMostOneReply(s, bytes, callback);
    var replies := Served(s, bytes, callback).replies;
    if reply :| replies == s.serving.replies + [reply] {
      PrintedSnoc(s.serving.replies, reply);
    }
  }

  lemma ReceiveAccepts(s: Session, bytes: string, callback: Callback, result: int) returns (k: nat)
    requires Between(s.serving.parser) && CanReceive(s, bytes, callback, result)
    ensures var text, s' := Sends(s, bytes, callback), ReceiveStep(s, bytes, callback, result);
            && k <= |text| && (k == |text| <==> WholeAt(s, Receive(bytes, callback, result)))
            && s'.stream.accepted == s.stream.accepted + text[..k]
            && Printed(s'.serving.replies) == Printed(s.serving.replies) + text
  {
    hide Served, Sends, Printed, OutputStream.Step;
    RepliesPrint(s, bytes, callback);
    var text, sent := Sends(s, bytes, callback), s.stream;
    k := 0;
    if |text| > 0 {
      k := SendAccepts(s.stream, text, result);
      sent := OutputStream.Step(s.stream, OutputStream.Send(text, result));
    }
    OutputStream.StepAccepts(sent, OutputStream.Shutdown);
  }

  lemma HoldsMore(accepted: seq<Byte>, printed: seq<Byte>, text: seq<Byte>, k: nat)
    requires k <= |text| && |accepted| <= |printed| && (|accepted| == |printed| ==> accepted == printed)
    ensures |accepted + text[..k]| <= |printed + text|
    ensures |accepted + text[..k]| == |printed + text| <==> |accepted| == |printed| && k == |text|
    ensures |accepted + text[..k]| == |printed + text| ==> accepted + text[..k] == printed + text
  {
    assert k == |text| ==> text[..k] == text;
  }

  lemma StepHolds(s: Session, e: Event, whole: bool)
    requires Between(s.serving.parser) && Holds(s, whole)
    ensures Holds(Step(s, e), whole && WholeAt(s, e))
  {
    hide ReceiveStep, Sends, Printed, CanReceive;
    if e.Receive? && CanReceive(s, e.bytes, e.callback, e.result) {
      var k := ReceiveAccepts(s, e.bytes, e.callback, e.result);
      HoldsMore(s.stream.accepted, Printed(s.serving.replies), Sends(s, e.bytes, e.callback), k);
    }
  }

  lemma {:induction false} RunHolds(r: Request, es: seq<Event>, n: nat)
    requires n <= |es|
    ensures Holds(RunTo(r, es, n), AllWhole(r, es, n))
  {
    hide Holds, WholeAt, Step;
    if n > 0 {
      RunHolds(r, es, n - 1);
      StepHolds(RunTo(r, es, n - 1), es[n - 1], AllWhole(r, es, n - 1));
    } else {
      FreshHolds(r);
    }
  }

  lemma FreshHolds(r: Request)
    ensures Holds(Initial(r), true)
  {
  }

  // ---------------------------------------------------------------- closing replies

  /** The reply is followed by a shutdown. */
  predicate Closing(reply: Reply) {
    reply.BadRequest? || reply.response.close
  }

  /** A closing reply is the last one, and the connection is then shutting down or closed. */
  ghost predicate ClosingIsLast(s: Session) {
    forall i | 0 <= i < |s.serving.replies| && Closing(s.serving.replies[i]) ::
      && i == |s.serving.replies| - 1
      && (s.stream.state == OutputStream.Disconnecting || s.stream.state == OutputStream.Disconnected)
  }

  /** The new reply closes exactly when the state changes. */
  lemma ReplyCloses(s: Session, bytes: string, callback: Callback)
    requires Between(s.serving.parser) && Hears(s)
    ensures var now, served := s.serving.replies, Served(s, bytes, callback);
            && (served.replies != now ==> s.stream.state == OutputStream.Connected && now < served.replies)
            && (served.state == s.stream.state || served.state == OutputStream.Disconnecting)
            && (served.state != s.stream.state <==> served.replies != now && Closing(served.replies[|now|]))
  {
  }

  lemma ShutdownHonoured(s: OutputStream.Stream)
    ensures OutputStream.Step(s, OutputStream.Shutdown).state == OutputStream.ShutdownState(s.state)
  {
  }

  lemma SendKeepsState(s: OutputStream.Stream, text: seq<Byte>, result: int)
    ensures OutputStream.Step(s, OutputStream.Send(text, result)).state == s.state
  {
  }

  lemma ReceiveKeepsClosing(s: Session, bytes: string, callback: Callback, result: int)
    requires Between(s.serving.parser) && CanReceive(s, bytes, callback, result) && ClosingIsLast(s)
    ensures ClosingIsLast(ReceiveStep(s, bytes, callback, result))
  {
    hide Served, Sends, OutputStream.Step;
    AtMostOneReply(s, bytes, callback);
    ReplyCloses(s, bytes, callback);
    var text := Sends(s, bytes, callback);
    SendKeepsState(s.stream, text, result);
    ShutdownHonoured(s.stream);
    ShutdownHonoured(OutputStream.Step(s.stream, OutputStream.Send(text, result)));
  }

  lemma StepKeepsClosing(s: Session, e: Event)
    requires Between(s.serving.parser) && ClosingIsLast(s)
    ensures ClosingIsLast(Step(s, e))
  {
    hide ReceiveStep, Sends, CanReceive, OutputStream.Step;
    match e {
      case Receive(bytes, callback, result) =>
        if CanReceive(s, bytes, callback, result) {
          ReceiveKeepsClosing(s, bytes, callback, result);
        }
      case Output(o) => OutputStream.StepChangesState(s.stream, o);
    }
  }

  /** In every run a reply that closes, the 400 for a malformed line among them, is the last one, and the
      connection has been shut down with it. */
  lemma {:induction false} NothingAfterAClosingReply(r: Request, es: seq<Event>, n: nat)
    requires n <= |es|
    ensures ClosingIsLast(RunTo(r, es, n))
  {
    hide ClosingIsLast, Step;
    if n > 0 {
      NothingAfterAClosingReply(r, es, n - 1);
      StepKeepsClosing(RunTo(r, es, n - 1), es[n - 1]);
    } else {
      NoReplyYet(r);
    }
  }

  lemma NoReplyYet(r: Request)
    ensures ClosingIsLast(Initial(r))
  {
  }

  // ---------------------------------------------------------------- main result

  /** From end to end, in every run: the replies answer the first requests of what the peer sent, in order; the
      bytes taken and those waiting are the printed replies if and only if every reply was kept whole; and then
      what the kernel took is a prefix of them. */
  lemma AnswersReachTheKernel(r: Request, es: seq<Event>)
    ensures var s := Run(r, es);
            && Asked(r, s.received) == Answered(s.serving.replies) + Waiting(s.serving, "")
            && (s.stream.taken + s.stream.out == Printed(s.serving.replies) <==> AllWhole(r, es, |es|))
            && (AllWhole(r, es, |es|) ==> s.stream.taken <= Printed(s.serving.replies))
  {
    var s := Run(r, es);
    RequestsFollow(r, es, |es|, "");
    assert s.received + "" == s.received;
    RunFits(r, es, |es|);
    RunHolds(r, es, |es|);
  }
}
