/** The output side of a connection as a state machine: what `send`, `handleWrite`, `shutdown` and
    `handleClose` of Net/TcpConnection.cc do to the bytes that were accepted.

    The kernel is free within its contract: a write takes any part of what it is offered or fails, and
    always fails once the write side is shut. */
module OutputStream {
  import opened Integers
  import opened Sequences

  datatype State = Connecting | Connected | Disconnected | Disconnecting

  /** `out` is the output buffer, `writing` the channel's interest in writing, `shut` says that SHUT_WR was
      issued, `tasks` counts the `shutdownInloop` calls queued in the loop, and `midway` says that another
      thread has set the state in `shutdown` without having queued its call yet. `taken` is what the kernel
      has taken, `accepted` what `send` took responsibility for, `closed` that `handleClose` ran. */
  datatype Stream = Stream(
    state: State, out: seq<Byte>, writing: bool, shut: bool, tasks: nat, midway: bool,
    taken: seq<Byte>, accepted: seq<Byte>, closed: bool)

  const INITIAL := Stream(Connecting, [], false, false, 0, false, [], [], false)

  /** `result` is what `write` returns if it is called. */
  datatype Event =
    | Establish | Send(message: seq<Byte>, result: int) | Writable(written: int)
    | Shutdown | BeginShutdown | QueueShutdown | RunShutdownTask | Close

  /** `send` writes at once only when nothing is waiting. */
  predicate Direct(s: Stream) {
    !s.writing && s.out == []
  }

  /** What the kernel may return for a write of `n` bytes; it never takes more than an `int` can hold. */
  predicate Possible(s: Stream, n: nat, result: int) {
    result <= n && result <= INT_MAX && (s.shut ==> result < 0)
  }

  /** What `send` takes to remain of `n` bytes when the direct write took `sent`: size and difference are
      `int`s. */
  function Remain(n: nat, sent: nat): (r: int)
    requires sent <= n
    ensures r <= n - sent && (r == n - sent <==> n - sent <= INT_MAX)
    ensures -INT_MAX - 1 <= r <= INT_MAX
  {
    Int32(Int32(n) - sent)
  }

  /** Otherwise the difference wraps around. */
  lemma RemainWraps(n: nat, sent: nat)
    requires sent <= n
    ensures (n - sent - Remain(n, sent)) % TWO_TO_THE_32 == 0
  {
    var i := Int32(n);
    assert (n - i) % TWO_TO_THE_32 == 0;
    assert (i - sent - Int32(i - sent)) % TWO_TO_THE_32 == 0;
  }

  /** How many bytes of the message it keeps. */
  function Kept(n: nat, sent: nat): (k: nat)
    requires sent <= n
    ensures sent <= k <= n && (k == n <==> n - sent <= INT_MAX)
  {
    if Remain(n, sent) > 0 then sent + Remain(n, sent) else sent
  }

  /** The rest of `send`, after the direct write took `sent` bytes. */
  function Keep(s: Stream, message: seq<Byte>, sent: nat): Stream
    requires sent <= |message|
  {
    var kept := Kept(|message|, sent);
    var s' := s.(taken := s.taken + message[..sent], accepted := s.accepted + message[..kept]);
    if kept > sent then s'.(out := s.out + message[sent..kept], writing := true) else s'
  }

  function SendStep(s: Stream, message: seq<Byte>, result: int): Stream
    requires Possible(s, |message|, result)
  {
    if Direct(s) && result < 0 then s else Keep(s, message, if Direct(s) then result else 0)
  }

  /** The state change of `shutdown`. */
  function ShutdownState(s: State): State {
    if s == Connected then Disconnecting else s
  }

  function ShutdownInLoop(s: Stream): Stream {
    if s.writing then s else s.(shut := true)
  }

  function WritableStep(s: Stream, result: int): Stream
    requires Possible(s, |s.out|, result)
  {
    if !s.writing || result <= 0 then s
    else
      var s' := s.(taken := s.taken + s.out[..result], out := s.out[result..]);
      if result < |s.out| then s'
      else
        var drained := s'.(writing := false);
        if s.state == Disconnecting then ShutdownInLoop(drained) else drained
  }

  /** Any event at any time; one that cannot happen changes nothing. `Shutdown` is by the loop's own thread;
      another thread sets the state and queues its call in two steps. */
  function Step(s: Stream, e: Event): Stream {
    match e
    case Establish => if s.state != Connecting then s else s.(state := Connected)
    case Send(message, result) => if !Possible(s, |message|, result) then s else SendStep(s, message, result)
    case Writable(result) => if !Possible(s, |s.out|, result) then s else WritableStep(s, result)
    case Shutdown => if s.state != Connected then s else ShutdownInLoop(s.(state := ShutdownState(s.state)))
    case BeginShutdown =>
      if s.state != Connected then s else s.(state := ShutdownState(s.state), midway := true)
    case QueueShutdown => if !s.midway then s else s.(midway := false, tasks := s.tasks + 1)
    case RunShutdownTask => if s.tasks == 0 then s else ShutdownInLoop(s.(tasks := s.tasks - 1))
    case Close => s.(state := Disconnected, writing := false, closed := true)
  }

  function RunTo(es: seq<Event>, n: nat): Stream
    requires n <= |es|
  {
    if n == 0 then INITIAL else Step(RunTo(es, n - 1), es[n - 1])
  }

  function Run(es: seq<Event>): Stream {
    RunTo(es, |es|)
  }

  ghost predicate Inv(s: Stream) {
    !s.closed ==>
      && s.taken + s.out == s.accepted
      && (s.writing <==> |s.out| > 0)
      && (s.shut ==> |s.out| == 0 && s.state == Disconnecting)
      && (s.state == Disconnecting ==> s.midway || s.tasks > 0 || s.writing || s.shut)
      && (s.tasks > 0 || s.midway ==> s.state == Disconnecting)
      && s.state != Disconnected
  }

  lemma SendKeepsInv(s: Stream, message: seq<Byte>, result: int)
    requires Inv(s) && Possible(s, |message|, result)
    ensures Inv(SendStep(s, message, result))
  {
    if !s.closed && !(Direct(s) && result < 0) {
      var sent := if Direct(s) then result else 0;
      var kept := Kept(|message|, sent);
      Cut(message, sent, kept);
      if Direct(s) {
        Assoc(s.taken, message[..sent], message[sent..kept]);
      } else {
        Assoc(s.taken, s.out, message[sent..kept]);
      }
    }
  }

  lemma Cut(message: seq<Byte>, i: nat, k: nat)
    requires i <= k <= |message|
    ensures message[..k] == message[..i] + message[i..k]
  {
  }

  lemma WritableKeepsInv(s: Stream, result: int)
    requires Inv(s) && Possible(s, |s.out|, result)
    ensures Inv(WritableStep(s, result))
  {
    if s.writing && result > 0 {
      assert s.out == s.out[..result] + s.out[result..];
    }
  }

  lemma StepKeepsInv(s: Stream, e: Event)
    requires Inv(s)
    ensures Inv(Step(s, e))
  {
    match e {
      case Send(message, result) => if Possible(s, |message|, result) { SendKeepsInv(s, message, result); }
      case Writable(result) => if Possible(s, |s.out|, result) { WritableKeepsInv(s, result); }
      case _ =>
    }
  }

  lemma {:induction false} RunKeepsInv(es: seq<Event>, n: nat)
    requires n <= |es|
    ensures Inv(RunTo(es, n))
  {
    if n > 0 {
      RunKeepsInv(es, n - 1);
      StepKeepsInv(RunTo(es, n - 1), es[n - 1]);
    }
  }

  /** The states of all runs. */
  ghost predicate Reachable(s: Stream) {
    exists es :: Run(es) == s
  }

  lemma RunToNext(es: seq<Event>, n: nat)
    requires n < |es|
    ensures RunTo(es, n + 1) == Step(RunTo(es, n), es[n])
  {
  }

  lemma {:induction false} RunToPrefix(es: seq<Event>, e: Event, n: nat)
    requires n <= |es|
    ensures RunTo(es + [e], n) == RunTo(es, n)
  {
    if n > 0 {
      RunToPrefix(es, e, n - 1);
    }
  }

  lemma RunSnoc(es: seq<Event>, e: Event)
    ensures Run(es + [e]) == Step(Run(es), e)
  {
    RunToPrefix(es, e, |es|);
    RunToNext(es + [e], |es|);
  }

  lemma ReachableStep(s: Stream, e: Event)
    requires Reachable(s)
    ensures Reachable(Step(s, e))
  {
    var es :| Run(es) == s;
    RunSnoc(es, e);
  }

  lemma ReachableInv(s: Stream)
    requires Reachable(s)
    ensures Inv(s)
  {
    var es :| Run(es) == s;
    RunKeepsInv(es, |es|);
  }

  // ---------------------------------------------------------------- main results

  /** What one event adds to the accepted bytes: of a message whose `send` did not return early, everything,
      or if the rest does not fit an `int` what the kernel took and the wrapped count allows. */
  function Added(s: Stream, e: Event): seq<Byte> {
    if !e.Send? || !Possible(s, |e.message|, e.result) || (Direct(s) && e.result < 0) then []
    else e.message[..Kept(|e.message|, if Direct(s) then e.result else 0)]
  }

  function AcceptedTo(es: seq<Event>, n: nat): seq<Byte>
    requires n <= |es|
  {
    if n == 0 then [] else AcceptedTo(es, n - 1) + Added(RunTo(es, n - 1), es[n - 1])
  }

  lemma StepAccepts(s: Stream, e: Event)
    ensures Step(s, e).accepted == s.accepted + Added(s, e)
  {
  }

  lemma {:induction false} AcceptedIsTheSends(es: seq<Event>, n: nat)
    requires n <= |es|
    ensures RunTo(es, n).accepted == AcceptedTo(es, n)
  {
    if n > 0 {
      AcceptedIsTheSends(es, n - 1);
      StepAccepts(RunTo(es, n - 1), es[n - 1]);
    }
  }

  // ---------------------------------------------------------------- what the kernel takes

  /** What the kernel takes in one event: the first `result` bytes of a message sent while nothing waits, or of
      the bytes that wait. */
  function Took(s: Stream, e: Event): seq<Byte> {
    match e
    case Send(message, result) =>
      if Possible(s, |message|, result) && s.out == [] && result > 0 then message[..result] else []
    case Writable(result) =>
      if Possible(s, |s.out|, result) && s.writing && result > 0 then s.out[..result] else []
    case _ => []
  }

  function TakenTo(es: seq<Event>, n: nat): seq<Byte>
    requires n <= |es|
  {
    if n == 0 then [] else TakenTo(es, n - 1) + Took(RunTo(es, n - 1), es[n - 1])
  }

  /** With nothing waiting, no write interest: also after a close. */
  ghost predicate Quiet(s: Stream) {
    s.out == [] ==> !s.writing
  }

  lemma StepStaysQuiet(s: Stream, e: Event)
    requires Quiet(s)
    ensures Quiet(Step(s, e))
  {
    match e {
      case Send(message, result) =>
        if Possible(s, |message|, result) {
          assert |Step(s, e).out| == 0 ==> |s.out| == 0;
        }
      case Writable(result) =>
        if Possible(s, |s.out|, result) && s.writing && 0 < result < |s.out| {
          assert |s.out[result..]| > 0;
        }
      case _ =>
    }
  }

  lemma {:induction false} RunStaysQuiet(es: seq<Event>, n: nat)
    requires n <= |es|
    ensures Quiet(RunTo(es, n))
  {
    if n > 0 {
      RunStaysQuiet(es, n - 1);
      StepStaysQuiet(RunTo(es, n - 1), es[n - 1]);
    }
  }

  lemma StepTakes(s: Stream, e: Event)
    requires Quiet(s)
    ensures Step(s, e).taken == s.taken + Took(s, e)
  {
  }

  /** In every run the kernel has taken exactly what its writes returned: of every message that was sent while
      nothing waited the first `result` bytes, and otherwise from the front of what waited. */
  lemma {:induction false} TakenIsWhatWasWritten(es: seq<Event>, n: nat)
    requires n <= |es|
    ensures RunTo(es, n).taken == TakenTo(es, n)
  {
    hide Step, Took, Quiet;
    if n > 0 {
      TakenIsWhatWasWritten(es, n - 1);
      RunStaysQuiet(es, n - 1);
      StepTakes(RunTo(es, n - 1), es[n - 1]);
    }
  }

  /** A send with nothing waiting leaves waiting exactly the kept bytes behind the first `result`, and nothing at
      all when the write fails; a send with bytes waiting appends what it keeps and writes nothing. Write interest
      is on exactly while bytes wait. */
  lemma SendWritesAndKeeps(es: seq<Event>, message: seq<Byte>, result: int)
    requires Possible(Run(es), |message|, result)
    ensures var s, s' := Run(es), Step(Run(es), Send(message, result));
            && (s.out == [] && result < 0 ==> s' == s)
            && (s.out == [] && result >= 0 ==>
                  && s'.taken == s.taken + message[..result]
                  && s'.out == message[result..Kept(|message|, result)]
                  && (s'.writing <==> result < Kept(|message|, result)))
            && (s.out != [] ==>
                  && s'.taken == s.taken && s'.out == s.out + message[..Kept(|message|, 0)]
                  && (!s.closed ==> s'.writing))
            && s'.state == s.state && s'.shut == s.shut && s'.closed == s.closed
  {
    RunKeepsInv(es, |es|);
    RunStaysQuiet(es, |es|);
    var s := Run(es);
    if s.out == [] && result >= 0 {
      assert [] + message[result..Kept(|message|, result)] == message[result..Kept(|message|, result)];
    }
  }

  lemma ReachableIsQuiet(s: Stream)
    requires Reachable(s)
    ensures Quiet(s)
  {
    var es :| Run(es) == s;
    RunStaysQuiet(es, |es|);
  }

  /** A write of waiting bytes takes the first `result` of them and leaves the rest, in order; interest ends with
      the last of them. */
  lemma WritableTakesTheFirst(es: seq<Event>, result: int)
    requires !Run(es).closed && Run(es).out != [] && Possible(Run(es), |Run(es).out|, result)
    ensures var s, s' := Run(es), Step(Run(es), Writable(result));
            && (result <= 0 ==> s' == s)
            && (result > 0 ==> s'.taken == s.taken + s.out[..result] && s'.out == s.out[result..])
            && (s'.writing <==> s'.out != [])
  {
    RunKeepsInv(es, |es|);
    StepKeepsInv(Run(es), Writable(result));
    assert |Run(es).out| > 0;
  }

  // ---------------------------------------------------------------- the state

  predicate AsksShutdown(e: Event) {
    e.Shutdown? || e.BeginShutdown?
  }

  /** The connection is established by one of the first `n` events. */
  ghost predicate Established(es: seq<Event>, n: nat)
    requires n <= |es|
  {
    exists i :: 0 <= i < n && es[i] == Establish
  }

  /** After that, one of them asks for a shutdown. */
  ghost predicate ShutdownAsked(es: seq<Event>, n: nat)
    requires n <= |es|
  {
    exists i, j :: 0 <= i < j < n && es[i] == Establish && AsksShutdown(es[j])
  }

  ghost predicate CloseCame(es: seq<Event>, n: nat)
    requires n <= |es|
  {
    exists i :: 0 <= i < n && es[i] == Close
  }

  lemma LastEvent(es: seq<Event>, n: nat)
    requires 0 < n <= |es|
    ensures Established(es, n) <==> Established(es, n - 1) || es[n - 1] == Establish
    ensures ShutdownAsked(es, n) <==>
            ShutdownAsked(es, n - 1) || (Established(es, n - 1) && AsksShutdown(es[n - 1]))
    ensures CloseCame(es, n) <==> CloseCame(es, n - 1) || es[n - 1] == Close
  {
    if Established(es, n - 1) && AsksShutdown(es[n - 1]) {
      var i :| 0 <= i < n - 1 && es[i] == Establish;
      assert es[i] == Establish && AsksShutdown(es[n - 1]);
    }
  }

  lemma StepChangesState(s: Stream, e: Event)
    ensures var s' := Step(s, e);
            && (s'.state == Disconnected <==> s.state == Disconnected || e == Close)
            && (s'.state == Disconnecting <==>
                  e != Close && (s.state == Disconnecting || (s.state == Connected && AsksShutdown(e))))
            && (s'.state == Connecting <==> s.state == Connecting && e != Establish && e != Close)
  {
  }

  /** The state of every run follows from its events alone: a close disconnects for good; before it, the first
      shutdown asked for by any thread on an established connection is honoured, and one asked for earlier is
      not. */
  lemma {:induction false} StateExactly(es: seq<Event>, n: nat)
    requires n <= |es|
    ensures var state := RunTo(es, n).state;
            && (state == Disconnected <==> CloseCame(es, n))
            && (state == Disconnecting <==> !CloseCame(es, n) && ShutdownAsked(es, n))
            && (state == Connecting <==> !CloseCame(es, n) && !Established(es, n))
  {
    if n > 0 {
      StateExactly(es, n - 1);
      LastEvent(es, n);
      StepChangesState(RunTo(es, n - 1), es[n - 1]);
    }
  }

  /** A message is kept whole, whatever the kernel takes at once, exactly when its size fits an `int`. */
  lemma KeptWholeExactly(n: nat)
    ensures (forall sent | 0 <= sent <= n && sent <= INT_MAX :: Kept(n, sent) == n) <==> n <= INT_MAX
  {
    if n > INT_MAX {
      assert Kept(n, 0) < n;
    }
  }

  /** Until the connection closes, what the kernel took followed by the output buffer is, in order, the
      accepted part of every message whose direct write did not fail, and write interest is on exactly while
      bytes wait. */
  lemma BytesAreConserved(es: seq<Event>)
    requires !Run(es).closed
    ensures var s := Run(es);
            s.taken + s.out == AcceptedTo(es, |es|) && (s.writing <==> s.out != [])
  {
    RunKeepsInv(es, |es|);
    AcceptedIsTheSends(es, |es|);
    var s := Run(es);
    assert s.out != [] <==> |s.out| > 0;
  }

  /** SHUT_WR is issued only after the kernel took every accepted byte; and a requested shutdown that has
      not been issued is about to be queued, queued, or waits for the buffer to drain. */
  lemma ShutdownWaitsForTheBytes(es: seq<Event>)
    requires !Run(es).closed
    ensures var s := Run(es);
            && (s.shut ==> s.out == [] && s.taken == AcceptedTo(es, |es|))
            && (s.state == Disconnecting && !s.shut ==> s.midway || s.tasks > 0 || s.out != [])
  {
    RunKeepsInv(es, |es|);
    AcceptedIsTheSends(es, |es|);
  }

  /** Once a shutdown was requested, the `handleWrite` that drains the buffer issues it. */
  lemma DrainIssuesTheShutdown(es: seq<Event>, result: int)
    requires !Run(es).closed && Run(es).state == Disconnecting && Run(es).out != []
    requires Possible(Run(es), |Run(es).out|, result)
    ensures var s := Step(Run(es), Writable(result));
            s.shut <==> result == |Run(es).out|
  {
    RunKeepsInv(es, |es|);
  }

  /** After SHUT_WR nothing more is accepted or taken. */
  lemma NothingAfterShutdown(es: seq<Event>, e: Event)
    requires !Run(es).closed && Run(es).shut
    ensures var s := Step(Run(es), e);
            s.shut && s.taken == Run(es).taken && s.accepted == Run(es).accepted && s.out == []
  {
    RunKeepsInv(es, |es|);
    assert |Run(es).out| == 0;
  }

  /** `send` keeps a non-empty message whole exactly when what the direct write leaves of it fits an `int` and
      it is not the case that nothing waits and the direct write fails, a full socket buffer included; and it
      keeps none of it exactly in that case and when the count wraps to nothing. */
  lemma SendLosesExactly(es: seq<Event>, message: seq<Byte>, result: int)
    requires !Run(es).closed && message != [] && Possible(Run(es), |message|, result)
    ensures var s, s' := Run(es), Step(Run(es), Send(message, result));
            && (s'.taken + s'.out == s.taken + s.out + message
                <==> if s.out == [] then 0 <= result && |message| - result <= INT_MAX else |message| <= INT_MAX)
            && (s'.taken + s'.out == s.taken + s.out
                <==> if s.out == [] then result < 0 || Kept(|message|, result) == 0 else Int32(|message|) <= 0)
  {
    RunKeepsInv(es, |es|);
    var s, e := Run(es), Send(message, result);
    SendKeepsInv(s, message, result);
    StepAccepts(s, e);
    assert s.out == [] <==> |s.out| == 0;
    PrefixAdded(s.accepted, message, |Added(s, e)|);
  }

  lemma PrefixAdded(before: seq<Byte>, message: seq<Byte>, k: nat)
    requires k <= |message|
    ensures before + message[..k] == before + message <==> k == |message|
    ensures before + message[..k] == before <==> k == 0
  {
    assert |before + message[..k]| == |before| + k;
    assert k == |message| ==> message[..k] == message;
  }
}
