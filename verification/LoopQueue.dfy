/** The event loop's task queue and its eventfd wake-up as a state machine.

    Net/EventLoop.cc: one owner thread runs `loop()`, any number of other threads call `queueInLoop` and
    `quit`. A foreign call is two steps, the locked push (or the flag write) and the write to the eventfd,
    and everything may happen between them. */
module LoopQueue {
  import opened Sequences

  type Task = int
  type ThreadId = nat

  /** Where the owner thread stands. `Before` is ahead of line 74, which resets `quit_`; `InTask` is inside
      a functor, where user code may queue tasks and quit, as it may inside an event handler. */
  datatype Pc = Before | Test | Poll | Handle(woken: bool) | Swap | Batch | InTask | Done

  /** `midway` are the foreign threads between their push (or flag write) and their eventfd write.
      `enqueued` and `executed` record history. `mark` is the length of `enqueued` at the last swap, `seen`
      at the last return of `poll`; `early` says that the owner queued tasks before `loop()` and they have
      not been swapped out yet. */
  datatype Loop = Loop(
    pc: Pc, quit: bool, calling: bool, pending: seq<Task>, local: seq<Task>, counter: nat,
    midway: set<ThreadId>, enqueued: seq<Task>, executed: seq<Task>, mark: nat, seen: nat, early: bool)

  const INITIAL := Loop(Before, false, false, [], [], 0, {}, [], [], 0, 0, false)

  datatype Event =
    | Push(thread: ThreadId, task: Task) | SetQuit(thread: ThreadId) | Wake(thread: ThreadId)
    | OwnQueue(own: Task) | OwnQuit
    | Enter | TestQuit | PollReturn(readable: bool) | ReadWake | EndHandle
    | SwapOut | RunTask | EndTask | EndBatch

  /** The owner runs user code before `loop()`, in event handlers and inside functors. */
  predicate OwnerIsFree(pc: Pc) {
    pc == Before || pc.Handle? || pc == InTask
  }

  function Enqueue(s: Loop, t: Task): Loop {
    s.(pending := s.pending + [t], enqueued := s.enqueued + [t])
  }

  /** Any event at any time; one that the acting thread's position does not allow changes nothing. */
  function Step(s: Loop, e: Event): Loop {
    match e
    case Push(i, t) => if i in s.midway then s else Enqueue(s, t).(midway := s.midway + {i})
    case SetQuit(i) => if i in s.midway then s else s.(quit := true, midway := s.midway + {i})
    case Wake(i) => if i !in s.midway then s else s.(counter := s.counter + 1, midway := s.midway - {i})
    case OwnQueue(t) =>
      if !OwnerIsFree(s.pc) then s
      else Enqueue(s, t).(counter := if s.calling then s.counter + 1 else s.counter,
                          early := s.early || s.pc == Before)
    case OwnQuit => if !OwnerIsFree(s.pc) then s else s.(quit := true)
    case Enter => if s.pc != Before then s else s.(pc := Test, quit := false)
    case TestQuit => if s.pc != Test then s else s.(pc := if s.quit then Done else Poll)
    case PollReturn(readable) =>
      if s.pc != Poll || (readable && s.counter == 0) then s
      else s.(pc := Handle(readable), seen := |s.enqueued|)
    case ReadWake => if s.pc != Handle(true) then s else s.(pc := Handle(false), counter := 0)
    case EndHandle => if !s.pc.Handle? then s else s.(pc := Swap, calling := true)
    case SwapOut =>
      if s.pc != Swap then s
      else s.(pc := Batch, local := s.pending, pending := s.local, mark := |s.enqueued|, early := false)
    case RunTask =>
      if s.pc != Batch || s.local == [] then s
      else s.(pc := InTask, local := s.local[1..], executed := s.executed + [s.local[0]])
    case EndTask => if s.pc != InTask then s else s.(pc := Batch)
    case EndBatch => if s.pc != Batch || s.local != [] then s else s.(pc := Test, calling := false)
  }

  function RunTo(es: seq<Event>, n: nat): Loop
    requires n <= |es|
  {
    if n == 0 then INITIAL else Step(RunTo(es, n - 1), es[n - 1])
  }

  /** The loop after any schedule at all. */
  function Run(es: seq<Event>): Loop {
    RunTo(es, |es|)
  }

  /** The eventfd is readable, or a foreign thread is about to make it so. */
  predicate WakeComing(s: Loop) {
    s.counter > 0 || s.midway != {}
  }

  /** Positions from which the owner reaches `poll` without swapping first. */
  predicate BeforePoll(pc: Pc) {
    pc == Before || pc == Test || pc == Poll || pc == Batch || pc == InTask
  }

  /** Every task is in one place, in order. */
  ghost predicate Ordered(s: Loop) {
    && s.enqueued == s.executed + s.local + s.pending
    && (s.pc != Batch && s.pc != InTask ==> |s.local| == 0)
    && (s.pc == Batch || s.pc == InTask ==> |s.executed| + |s.local| == s.mark && s.seen <= s.mark)
    && s.seen <= |s.enqueued|
    && (s.pc == Before || s.pc == Test || s.pc == Poll || s.pc == Done ==> s.seen <= |s.executed|)
  }

  /** Work that the next `poll` would sleep on has its wake-up. */
  ghost predicate Woken(s: Loop) {
    && (s.calling <==> s.pc == Swap || s.pc == Batch || s.pc == InTask)
    && (s.early ==> |s.pending| > 0 && s.pc != Batch && s.pc != InTask)
    && (BeforePoll(s.pc) && |s.pending| > 0 ==> WakeComing(s) || s.early)
    && (s.pc == Poll && s.quit ==> WakeComing(s))
  }

  ghost predicate Inv(s: Loop) {
    Ordered(s) && Woken(s)
  }

  /** The head of the batch moves to what was executed. */
  lemma Advance(executed: seq<Task>, local: seq<Task>, pending: seq<Task>)
    requires |local| > 0
    ensures executed + local + pending == executed + [local[0]] + local[1..] + pending
  {
    assert local == [local[0]] + local[1..];
  }

  lemma StepStaysOrdered(s: Loop, e: Event)
    requires Ordered(s)
    ensures Ordered(Step(s, e))
  {
    match e {
      case RunTask => if s.pc == Batch && |s.local| > 0 { Advance(s.executed, s.local, s.pending); }
      case Push(_, t) => Assoc(s.executed + s.local, s.pending, [t]);
      case OwnQueue(t) => Assoc(s.executed + s.local, s.pending, [t]);
      case _ =>
    }
  }

  lemma StepStaysWoken(s: Loop, e: Event)
    requires Ordered(s) && Woken(s)
    ensures Woken(Step(s, e))
  {
  }

  lemma StepKeepsInv(s: Loop, e: Event)
    requires Inv(s)
    ensures Inv(Step(s, e))
  {
    StepStaysOrdered(s, e);
    StepStaysWoken(s, e);
  }

  lemma {:induction false} RunKeepsInv(es: seq<Event>, n: nat)
    requires n <= |es|
    ensures Inv(RunTo(es, n))
  {
    if n > 0 {
      RunKeepsInv(es, n - 1);
      StepKeepsInv(RunTo(es, n - 1), es[n - 1]);
    }
  }

  /** The states of all runs. */
  ghost predicate Reachable(s: Loop) {
    exists es :: Run(es) == s
  }

  lemma RunToNext(es: seq<Event>, n: nat)
    requires n < |es|
    ensures RunTo(es, n + 1) == Step(RunTo(es, n), es[n])
  {
  }

  lemma {:induction false} RunToPrefix(es: seq<Event>, longer: seq<Event>, n: nat)
    requires n <= |es| <= |longer| && forall i | 0 <= i < n :: es[i] == longer[i]
    ensures RunTo(es, n) == RunTo(longer, n)
  {
    if n > 0 {
      RunToPrefix(es, longer, n - 1);
    }
  }

  lemma RunSnoc(es: seq<Event>, e: Event)
    ensures Run(es + [e]) == Step(Run(es), e)
  {
    RunToPrefix(es, es + [e], |es|);
    RunToNext(es + [e], |es|);
  }

  lemma ReachableStep(s: Loop, e: Event)
    requires Reachable(s)
    ensures Reachable(Step(s, e))
  {
    var es :| Run(es) == s;
    RunSnoc(es, e);
  }

  lemma ReachableInv(s: Loop)
    requires Reachable(s)
    ensures Inv(s)
  {
    var es :| Run(es) == s;
    RunKeepsInv(es, |es|);
  }

  // ---------------------------------------------------------------- what the events say

  ghost predicate At(es: seq<Event>, i: nat, what: (Loop, Event) -> bool)
    requires i < |es|
  {
    what(RunTo(es, i), es[i])
  }

  /** Something that sets a flag has happened, and nothing after that resets it. */
  ghost predicate SetSince(es: seq<Event>, n: nat, sets: (Loop, Event) -> bool, resets: (Loop, Event) -> bool)
    requires n <= |es|
  {
    exists i :: 0 <= i < n && At(es, i, sets) && forall j | i < j < n :: !At(es, j, resets)
  }

  lemma SetByLast(es: seq<Event>, n: nat, sets: (Loop, Event) -> bool, resets: (Loop, Event) -> bool)
    requires n <= |es|
    ensures n == 0 ==> !SetSince(es, n, sets, resets)
    ensures n > 0 ==>
              (SetSince(es, n, sets, resets)
               <==> At(es, n - 1, sets) || (SetSince(es, n - 1, sets, resets) && !At(es, n - 1, resets)))
  {
    hide At;
    if n > 0 && SetSince(es, n - 1, sets, resets) && !At(es, n - 1, resets) {
      var i :| 0 <= i < n - 1 && At(es, i, sets) && forall j | i < j < n - 1 :: !At(es, j, resets);
      assert At(es, i, sets) && forall j | i < j < n :: !At(es, j, resets);
    }
    if n > 0 && SetSince(es, n, sets, resets) && !At(es, n - 1, sets) {
      var i :| 0 <= i < n && At(es, i, sets) && forall j | i < j < n :: !At(es, j, resets);
      assert i < n - 1 && At(es, i, sets);
    }
  }

  /** What an event adds to the queue: the task of a caller whose position allows the call. */
  function Queued(s: Loop, e: Event): seq<Task> {
    match e
    case Push(thread, t) => if thread in s.midway then [] else [t]
    case OwnQueue(t) => if OwnerIsFree(s.pc) then [t] else []
    case _ => []
  }

  function QueuedTo(es: seq<Event>, n: nat): seq<Task>
    requires n <= |es|
  {
    if n == 0 then [] else QueuedTo(es, n - 1) + Queued(RunTo(es, n - 1), es[n - 1])
  }

  lemma StepQueues(s: Loop, e: Event)
    ensures Step(s, e).enqueued == s.enqueued + Queued(s, e)
  {
  }

  lemma {:induction false} EnqueuedIsQueued(es: seq<Event>, n: nat)
    requires n <= |es|
    ensures RunTo(es, n).enqueued == QueuedTo(es, n)
  {
    hide Step, Queued;
    if n > 0 {
      EnqueuedIsQueued(es, n - 1);
      StepQueues(RunTo(es, n - 1), es[n - 1]);
    }
  }

  /** The owner queues a task before `loop()`. */
  predicate QueuesEarly(s: Loop, e: Event) {
    e.OwnQueue? && s.pc == Before
  }

  /** The queue is swapped out. */
  predicate Swaps(s: Loop, e: Event) {
    e == SwapOut && s.pc == Swap
  }

  lemma StepSetsEarly(s: Loop, e: Event)
    ensures Step(s, e).early <==> QueuesEarly(s, e) || (s.early && !Swaps(s, e))
  {
  }

  lemma {:induction false} EarlyExactly(es: seq<Event>, n: nat)
    requires n <= |es|
    ensures RunTo(es, n).early <==> SetSince(es, n, QueuesEarly, Swaps)
  {
    hide SetSince, Step;
    SetByLast(es, n, QueuesEarly, Swaps);
    if n > 0 {
      EarlyExactly(es, n - 1);
      StepSetsEarly(RunTo(es, n - 1), es[n - 1]);
    }
  }

  /** A call of `quit` that its caller's position allows. */
  predicate CallsQuit(s: Loop, e: Event) {
    match e
    case SetQuit(thread) => thread !in s.midway
    case OwnQuit => OwnerIsFree(s.pc)
    case _ => false
  }

  /** The start of `loop()`. */
  predicate Starts(s: Loop, e: Event) {
    e == Enter && s.pc == Before
  }

  lemma StepSetsQuit(s: Loop, e: Event)
    ensures Step(s, e).quit <==> CallsQuit(s, e) || (s.quit && !Starts(s, e))
  {
  }

  lemma TestDecides(s: Loop)
    requires s.pc == Test
    ensures Step(s, TestQuit).pc == if s.quit then Done else Poll
  {
  }

  // ---------------------------------------------------------------- main results

  /** Exactly once, in order: what ran, what the batch still holds and what is pending is the sequence of tasks
      queued by all threads, also when tasks queue tasks. */
  lemma TasksRunOnceInOrder(es: seq<Event>)
    ensures var s := Run(es); QueuedTo(es, |es|) == s.executed + s.local + s.pending
  {
    RunKeepsInv(es, |es|);
    EnqueuedIsQueued(es, |es|);
  }

  predicate InBatch(s: Loop) {
    s.pc == Batch || s.pc == InTask
  }

  /** After each number of steps from `j` to `k` the owner is running a batch. */
  predicate StaysInBatch(es: seq<Event>, j: nat, k: nat)
    requires j <= k <= |es|
  {
    InBatch(RunTo(es, k)) && (j < k ==> StaysInBatch(es, j, k - 1))
  }

  lemma BatchIsSwapped(s: Loop)
    requires Inv(s) && s.pc == Swap
    ensures InBatch(Step(s, SwapOut))
    ensures Step(s, SwapOut).executed + Step(s, SwapOut).local == s.enqueued && Step(s, SwapOut).pending == []
  {
    assert s.executed + [] == s.executed;
  }

  lemma BatchGoesOn(s: Loop, e: Event)
    requires InBatch(s) && InBatch(Step(s, e))
    ensures Step(s, e).executed + Step(s, e).local == s.executed + s.local
  {
    if e == RunTask && s.pc == Batch && s.local != [] {
      Advance(s.executed, s.local, []);
    }
  }

  /** A batch runs only what was queued at its swap: as long as it goes on, what ran and what it still holds are
      the tasks queued by then, whatever is queued meanwhile. */
  lemma {:induction false} BatchIsTheSnapshot(es: seq<Event>, m: nat, n: nat)
    requires m < n <= |es| && At(es, m, Swaps) && StaysInBatch(es, m + 1, n)
    ensures RunTo(es, n).executed + RunTo(es, n).local == QueuedTo(es, m)
  {
    hide Step, Queued;
    RunToNext(es, n - 1);
    if n - 1 == m {
      RunKeepsInv(es, m);
      EnqueuedIsQueued(es, m);
      BatchIsSwapped(RunTo(es, m));
    } else {
      BatchIsTheSnapshot(es, m, n - 1);
      BatchGoesOn(RunTo(es, n - 1), es[n - 1]);
    }
  }

  lemma StepGrows(s: Loop, e: Event)
    requires Inv(s)
    ensures s.enqueued <= Step(s, e).enqueued && s.seen <= Step(s, e).seen
  {
  }

  lemma {:induction false} RunGrows(es: seq<Event>, m: nat, n: nat)
    requires m <= n <= |es|
    ensures RunTo(es, m).enqueued <= RunTo(es, n).enqueued && RunTo(es, m).seen <= RunTo(es, n).seen
  {
    hide Step, Inv;
    if m < n {
      RunGrows(es, m, n - 1);
      RunKeepsInv(es, n - 1);
      StepGrows(RunTo(es, n - 1), es[n - 1]);
    }
  }

  /** `poll` returns. */
  predicate Returns(s: Loop, e: Event) {
    e.PollReturn? && s.pc == Poll && (e.readable ==> s.counter > 0)
  }

  lemma ReturnSees(s: Loop, e: Event)
    requires Returns(s, e)
    ensures Step(s, e).seen == |s.enqueued| && Step(s, e).enqueued == s.enqueued
  {
  }

  /** Whenever the owner is back at `poll`, everything queued before any earlier return of `poll` has run. */
  lemma EachCycleDrainsWhatItSaw(es: seq<Event>, m: nat)
    requires m < |es| && At(es, m, Returns) && Run(es).pc == Poll
    ensures QueuedTo(es, m) <= Run(es).executed && Run(es).local == []
  {
    hide Step;
    RunKeepsInv(es, |es|);
    EnqueuedIsQueued(es, m);
    RunToNext(es, m);
    ReturnSees(RunTo(es, m), es[m]);
    RunGrows(es, m + 1, |es|);
  }

  /** No lost wake-up. At `poll`, with the eventfd at zero and no foreign thread midway, there is a pending task
      exactly when the owner queued one before `loop()` and the queue has not been swapped out since; and no quit
      is outstanding. */
  lemma NoLostWakeUp(es: seq<Event>)
    requires Run(es).pc == Poll && !WakeComing(Run(es))
    ensures Run(es).pending != [] <==> SetSince(es, |es|, QueuesEarly, Swaps)
    ensures !SetSince(es, |es|, CallsQuit, Starts)
  {
    RunKeepsInv(es, |es|);
    EarlyExactly(es, |es|);
    QuitIsSetExactly(es, |es|);
  }

  /** Without a `queueInLoop` by the owner before `loop()`, no schedule leaves a task behind at `poll`. */
  lemma QueueingInsideTheLoopIsSafe(es: seq<Event>)
    requires forall i | 0 <= i < |es| && es[i].OwnQueue? :: RunTo(es, i).pc != Before
    requires Run(es).pc == Poll && Run(es).pending != []
    ensures WakeComing(Run(es))
  {
    if !WakeComing(Run(es)) {
      NoLostWakeUp(es);
    }
  }

  /** The condition is needed: a task queued by the owner before `loop()` waits for the poll timeout. */
  lemma EarlyTaskIsNotWoken(t: Task)
    ensures var s := Run([OwnQueue(t), Enter, TestQuit]);
            s.pc == Poll && s.pending == [t] && !WakeComing(s)
  {
    var es := [OwnQueue(t), Enter, TestQuit];
    assert RunTo(es, 1) == Step(INITIAL, OwnQueue(t));
    assert RunTo(es, 2) == Step(RunTo(es, 1), Enter);
    assert RunTo(es, 3) == Step(RunTo(es, 2), TestQuit);
  }

  /** A quit that a foreign thread requests before line 74 is forgotten, although it wrote the eventfd. */
  lemma QuitBeforeLoopIsForgotten(i: ThreadId)
    ensures var s := Run([SetQuit(i), Wake(i), Enter, TestQuit, PollReturn(true), ReadWake]);
            s.pc == Handle(false) && !s.quit && !WakeComing(s)
  {
    var es := [SetQuit(i), Wake(i), Enter, TestQuit, PollReturn(true), ReadWake];
    EarlyQuit(es, i);
    assert RunTo(es, 4) == RunTo(es, 3).(pc := Poll);
    assert RunTo(es, 5) == RunTo(es, 3).(pc := Handle(true));
    assert RunTo(es, 6) == RunTo(es, 3).(pc := Handle(false), counter := 0);
  }

  lemma EarlyQuit(es: seq<Event>, i: ThreadId)
    requires |es| >= 3 && es[0] == SetQuit(i) && es[1] == Wake(i) && es[2] == Enter
    ensures RunTo(es, 3) == INITIAL.(pc := Test, counter := 1)
  {
    assert RunTo(es, 1) == INITIAL.(quit := true, midway := {i});
    assert RunTo(es, 2) == INITIAL.(quit := true, counter := 1);
  }

  /** In every run the flag is set if and only if somebody, owner or other thread, called `quit` and `loop()` did
      not start after that; the owner's loop test then ends the loop, and otherwise goes on to `poll`. */
  lemma {:induction false} QuitIsSetExactly(es: seq<Event>, n: nat)
    requires n <= |es|
    ensures RunTo(es, n).quit <==> SetSince(es, n, CallsQuit, Starts)
    ensures RunTo(es, n).pc == Test ==>
              Step(RunTo(es, n), TestQuit).pc == if SetSince(es, n, CallsQuit, Starts) then Done else Poll
  {
    hide SetSince, Step;
    SetByLast(es, n, CallsQuit, Starts);
    if n > 0 {
      QuitIsSetExactly(es, n - 1);
      StepSetsQuit(RunTo(es, n - 1), es[n - 1]);
    }
    if RunTo(es, n).pc == Test {
      TestDecides(RunTo(es, n));
    }
  }

  /** A call of `quit` by another thread also makes the eventfd readable, now or before that thread does anything
      else. */
  lemma ForeignQuitWakes(es: seq<Event>, i: ThreadId)
    requires i !in Run(es).midway
    ensures var s := Step(Run(es), SetQuit(i));
            && s.quit && WakeComing(s)
            && Step(s, Wake(i)).quit && Step(s, Wake(i)).counter == Run(es).counter + 1
  {
  }

  lemma StepKeepsQuit(s: Loop, e: Event)
    requires s.quit && s.pc != Before
    ensures Step(s, e).quit && Step(s, e).pc != Before && (Step(s, e).pc == Poll ==> s.pc == Poll)
  {
  }

  /** Once set inside the loop, the quit flag is never cleared, and the owner never gets to `poll` again
      unless it was already there. */
  lemma {:induction false} QuitIsKept(s: Loop, es: seq<Event>, n: nat)
    requires n <= |es| && s.quit && s.pc != Before
    ensures RunFrom(s, es, n).quit && RunFrom(s, es, n).pc != Before
    ensures RunFrom(s, es, n).pc == Poll ==> s.pc == Poll
  {
    if n > 0 {
      QuitIsKept(s, es, n - 1);
      StepKeepsQuit(RunFrom(s, es, n - 1), es[n - 1]);
    }
  }

  lemma EnterForgetsQuit(s: Loop) returns (es: seq<Event>)
    requires s.pc == Before
    ensures !RunFrom(s, es, |es|).quit
  {
    es := [Enter];
    assert RunFrom(s, es, 0) == s;
  }

  /** A quit is kept by everything that can happen afterwards exactly when `loop()` has passed line 74: one
      requested before that, by any thread, is forgotten. */
  lemma QuitIsKeptExactly(s: Loop)
    requires s.quit
    ensures (forall es, n: nat | n <= |es| :: RunFrom(s, es, n).quit) <==> s.pc != Before
  {
    if s.pc == Before {
      var es := EnterForgetsQuit(s);
      assert !RunFrom(s, es, |es|).quit;
    } else {
      forall es: seq<Event>, n: nat | n <= |es|
        ensures RunFrom(s, es, n).quit
      {
        QuitIsKept(s, es, n);
      }
    }
  }

  function RunFrom(s: Loop, es: seq<Event>, n: nat): Loop
    requires n <= |es|
  {
    if n == 0 then s else Step(RunFrom(s, es, n - 1), es[n - 1])
  }
}
