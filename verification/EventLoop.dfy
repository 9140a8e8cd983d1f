/** Net/EventLoop.cc: the fields of the event loop and its atomic sections.

    Every method says that the machine of LoopQueue.dfy takes the corresponding step or steps, so what is
    proved there over every schedule holds of these methods in every interleaving. */
module EventLoop {
  import opened LoopQueue

  datatype Caller = Owner | Foreign(thread: ThreadId)

  /** What the first `n` functors of a batch queue, in order. */
  function EffectsTo(effects: Task -> seq<Task>, batch: seq<Task>, n: nat): seq<Task>
    requires n <= |batch|
  {
    if n == 0 then [] else EffectsTo(effects, batch, n - 1) + effects(batch[n - 1])
  }

  lemma TakeNext(before: seq<Task>, executed: seq<Task>, batch: seq<Task>, k: nat)
    requires k < |batch| && executed == before + batch[..k]
    ensures batch[k..][0] == batch[k] && batch[k..][1..] == batch[k + 1..]
    ensures executed + [batch[k]] == before + batch[..k + 1]
  {
    assert batch[..k + 1] == batch[..k] + [batch[k]];
  }

  class EventLoop {
    var looping: bool
    var quit: bool
    var callingPendingFunctors: bool
    var pendingFunctors: seq<Task>
    /** The functors of `doPendingFunctors` that have not started. */
    var localFunctors: seq<Task>
    /** The eventfd's counter, kept by the kernel. */
    var wakeupCounter: nat

    ghost var view: Loop

    ghost predicate Valid()
      reads this
    {
      && Reachable(view)
      && quit == view.quit && callingPendingFunctors == view.calling
      && pendingFunctors == view.pending && localFunctors == view.local && wakeupCounter == view.counter
      && (looping <==> view.pc != Before && view.pc != Done)
    }

    constructor ()
      ensures Valid() && view == INITIAL
    {
      looping, quit, callingPendingFunctors := false, false, false;
      pendingFunctors, localFunctors, wakeupCounter := [], [], 0;
      view := INITIAL;
      assert Run([]) == INITIAL;
    }

    /** Lines 73-74. */
    method Enter()
      requires Valid() && view.pc == Before
      modifies this`looping, this`quit, this`view
      ensures Valid() && view == Step(old(view), Event.Enter) && looping && !quit && view.pc == Test
    {
      ReachableStep(view, Event.Enter);
      looping := true;
      quit := false;
      view := Step(view, Event.Enter);
    }

    /** The loop test, and line 97 when it fails. */
    method TestQuit() returns (again: bool)
      requires Valid() && view.pc == Test
      modifies this`looping, this`view
      ensures Valid() && view == Step(old(view), Event.TestQuit)
      ensures again == !quit && view.pc == (if again then Poll else Done) && looping == again
    {
      ReachableStep(view, Event.TestQuit);
      again := !quit;
      if !again {
        looping := false;
      }
      view := Step(view, Event.TestQuit);
    }

    /** `quit`: a foreign caller also wakes the loop. */
    method Quit(caller: Caller)
      requires Valid()
      requires if caller.Owner? then OwnerIsFree(view.pc) else caller.thread !in view.midway
      modifies this`quit, this`wakeupCounter, this`view
      ensures Valid() && quit && wakeupCounter == old(wakeupCounter) + (if caller.Foreign? then 1 else 0)
      ensures view == match caller
                      case Owner => Step(old(view), OwnQuit)
                      case Foreign(i) => Step(Step(old(view), SetQuit(i)), Event.Wake(i))
    {
      quit := true;
      if caller.Foreign? {
        ReachableStep(view, SetQuit(caller.thread));
        view := Step(view, SetQuit(caller.thread));
        Wakeup(caller.thread);
      } else {
        ReachableStep(view, OwnQuit);
        view := Step(view, OwnQuit);
      }
    }

    /** The eventfd write of a foreign thread. */
    method Wakeup(i: ThreadId)
      requires Valid() && i in view.midway
      modifies this`wakeupCounter, this`view
      ensures Valid() && view == Step(old(view), Event.Wake(i)) && wakeupCounter == old(wakeupCounter) + 1
    {
      ReachableStep(view, Event.Wake(i));
      wakeupCounter := wakeupCounter + 1;
      view := Step(view, Event.Wake(i));
    }

    /** The locked push of a foreign thread. */
    method PushFunctor(i: ThreadId, cb: Task)
      requires Valid() && i !in view.midway
      modifies this`pendingFunctors, this`view
      ensures Valid() && view == Step(old(view), Push(i, cb)) && pendingFunctors == old(pendingFunctors) + [cb]
    {
      ReachableStep(view, Push(i, cb));
      pendingFunctors := pendingFunctors + [cb];
      view := Step(view, Push(i, cb));
    }

    /** `queueInLoop`: the owner writes the eventfd only while it is running functors. */
    method QueueInLoop(caller: Caller, cb: Task)
      requires Valid()
      requires if caller.Owner? then OwnerIsFree(view.pc) else caller.thread !in view.midway
      modifies this`pendingFunctors, this`wakeupCounter, this`view
      ensures Valid() && pendingFunctors == old(pendingFunctors) + [cb]
      ensures wakeupCounter == old(wakeupCounter) + (if caller.Foreign? || callingPendingFunctors then 1 else 0)
      ensures view == match caller
                      case Owner => Step(old(view), OwnQueue(cb))
                      case Foreign(i) => Step(Step(old(view), Push(i, cb)), Event.Wake(i))
    {
      if caller.Foreign? {
        PushFunctor(caller.thread, cb);
        Wakeup(caller.thread);
      } else {
        ReachableStep(view, OwnQueue(cb));
        pendingFunctors := pendingFunctors + [cb];
        if callingPendingFunctors {
          wakeupCounter := wakeupCounter + 1;
        }
        view := Step(view, OwnQueue(cb));
      }
    }

    /** `runInLoop`: the owner runs the functor at once, which is what `direct` reports. */
    method RunInLoop(caller: Caller, cb: Task) returns (direct: bool)
      requires Valid()
      requires caller.Foreign? ==> caller.thread !in view.midway
      modifies this`pendingFunctors, this`wakeupCounter, this`view
      ensures Valid() && (direct <==> caller.Owner?)
      ensures if direct then pendingFunctors == old(pendingFunctors) && wakeupCounter == old(wakeupCounter)
              else pendingFunctors == old(pendingFunctors) + [cb] && wakeupCounter == old(wakeupCounter) + 1
      ensures view == match caller
                      case Owner => old(view)
                      case Foreign(i) => Step(Step(old(view), Push(i, cb)), Event.Wake(i))
    {
      direct := caller.Owner?;
      if !direct {
        QueueInLoop(caller, cb);
      }
    }

    /** The return of `poll`, which reports the eventfd only when it is readable. */
    method PollReturn(readable: bool)
      requires Valid() && view.pc == Poll && (readable ==> wakeupCounter > 0)
      modifies this`view
      ensures Valid() && view == Step(old(view), Event.PollReturn(readable)) && view.pc == Handle(readable)
    {
      ReachableStep(view, Event.PollReturn(readable));
      view := Step(view, Event.PollReturn(readable));
    }

    /** `handleRead`: reading the eventfd resets it. */
    method HandleRead()
      requires Valid() && view.pc == Handle(true)
      modifies this`wakeupCounter, this`view
      ensures Valid() && view == Step(old(view), ReadWake) && wakeupCounter == 0 && view.pc == Handle(false)
    {
      ReachableStep(view, ReadWake);
      wakeupCounter := 0;
      view := Step(view, ReadWake);
    }

    /** `doPendingFunctors` up to the unlock. */
    method SwapFunctors()
      requires Valid() && view.pc.Handle?
      modifies this`callingPendingFunctors, this`pendingFunctors, this`localFunctors, this`view
      ensures Valid() && view == Step(Step(old(view), EndHandle), SwapOut)
      ensures callingPendingFunctors && localFunctors == old(pendingFunctors) && pendingFunctors == []
      ensures view.pc == Batch && view.executed == old(view).executed
    {
      ReachableInv(view);
      ReachableStep(view, EndHandle);
      callingPendingFunctors := true;
      view := Step(view, EndHandle);
      ReachableStep(view, SwapOut);
      localFunctors, pendingFunctors := pendingFunctors, localFunctors;
      view := Step(view, SwapOut);
    }

    /** The functor loop's next step: start a functor, or leave the loop. */
    method RunNextFunctor() returns (more: bool, func: Task)
      requires Valid() && view.pc == Batch
      modifies this`callingPendingFunctors, this`localFunctors, this`view
      ensures Valid() && (more <==> old(view).local != [])
      ensures more ==> view == Step(old(view), RunTask) && view.executed == old(view).executed + [func]
                       && [func] + localFunctors == old(localFunctors)
                       && callingPendingFunctors == old(callingPendingFunctors)
      ensures !more ==> view == Step(old(view), EndBatch) && localFunctors == [] && !callingPendingFunctors
    {
      more, func := localFunctors != [], 0;
      if more {
        ReachableStep(view, RunTask);
        func, localFunctors := localFunctors[0], localFunctors[1..];
        view := Step(view, RunTask);
      } else {
        ReachableStep(view, EndBatch);
        callingPendingFunctors := false;
        view := Step(view, EndBatch);
      }
    }

    /** A functor returns. */
    method EndFunctor()
      requires Valid() && view.pc == InTask
      modifies this`view
      ensures Valid() && view == Step(old(view), EndTask) && view.pc == Batch
    {
      ReachableStep(view, EndTask);
      view := Step(view, EndTask);
    }

    /** User code of the owner queues functors, one after the other. */
    method QueueAll(ts: seq<Task>)
      requires Valid() && OwnerIsFree(view.pc)
      modifies this`pendingFunctors, this`wakeupCounter, this`view
      ensures Valid() && view.pc == old(view).pc
      ensures pendingFunctors == old(pendingFunctors) + ts && view.executed == old(view).executed
      ensures wakeupCounter == old(wakeupCounter) + (if callingPendingFunctors then |ts| else 0)
    {
      for i := 0 to |ts|
        invariant Valid() && view.pc == old(view).pc
        invariant pendingFunctors == old(pendingFunctors) + ts[..i] && view.executed == old(view).executed
        invariant wakeupCounter == old(wakeupCounter) + (if callingPendingFunctors then i else 0)
      {
        QueueInLoop(Owner, ts[i]);
        assert ts[..i + 1] == ts[..i] + [ts[i]];
      }
      assert ts[..|ts|] == ts;
    }

    /** One round of the functor loop: the next functor starts, queues what `effects` says, and returns; or the
        loop ends. */
    method RunOne(effects: Task -> seq<Task>) returns (more: bool)
      requires Valid() && view.pc == Batch && callingPendingFunctors
      modifies this`callingPendingFunctors, this`pendingFunctors, this`localFunctors, this`wakeupCounter, this`view
      ensures Valid() && more == (|old(localFunctors)| > 0)
      ensures if more then
                var func := old(localFunctors)[0];
                && view.pc == Batch && callingPendingFunctors && localFunctors == old(localFunctors)[1..]
                && view.executed == old(view).executed + [func]
                && pendingFunctors == old(pendingFunctors) + effects(func)
                && wakeupCounter == old(wakeupCounter) + |effects(func)|
              else
                && view.pc == Test && view.executed == old(view).executed
                && pendingFunctors == old(pendingFunctors) && wakeupCounter == old(wakeupCounter)
    {
      var func;
      more, func := RunNextFunctor();
      if more {
        QueueAll(effects(func));
        EndFunctor();
      }
    }

    /** The functor loop of `doPendingFunctors`. */
    method RunBatch(effects: Task -> seq<Task>)
      requires Valid() && view.pc == Batch && callingPendingFunctors && pendingFunctors == []
      modifies this`callingPendingFunctors, this`pendingFunctors, this`localFunctors, this`wakeupCounter, this`view
      ensures Valid() && view.pc == Test
      ensures view.executed == old(view).executed + old(localFunctors)
      ensures pendingFunctors == EffectsTo(effects, old(localFunctors), |old(localFunctors)|)
      ensures wakeupCounter == old(wakeupCounter) + |pendingFunctors|
    {
      ghost var batch, k := localFunctors, 0;
      var more := true;
      while more
        invariant Valid() && k <= |batch| && view.pc == (if more then Batch else Test)
        invariant if more then callingPendingFunctors && localFunctors == batch[k..] else k == |batch|
        invariant view.executed == old(view).executed + batch[..k]
        invariant pendingFunctors == EffectsTo(effects, batch, k)
        invariant wakeupCounter == old(wakeupCounter) + |pendingFunctors|
        decreases |batch| - k, more
      {
        ghost var executed := view.executed;
        more := RunOne(effects);
        if more {
          TakeNext(old(view).executed, executed, batch, k);
          k := k + 1;
        }
      }
      assert batch[..k] == batch;
    }

    /** One iteration of `loop` that no other thread interrupts: its handlers queue `handled`. It runs what was
        pending and what the handlers queued, in order; what the functors queue is left for the next iteration,
        and has made the eventfd readable. */
    method Iterate(readable: bool, handled: seq<Task>, effects: Task -> seq<Task>) returns (again: bool)
      requires Valid() && view.pc == Test && (readable ==> wakeupCounter > 0)
      modifies this
      ensures Valid() && again == !old(quit) && quit == old(quit)
      ensures !again ==> view == Step(old(view), Event.TestQuit) && view.pc == Done
      ensures again ==>
                var batch := old(pendingFunctors) + handled;
                && view.pc == Test && view.executed == old(view).executed + batch
                && pendingFunctors == EffectsTo(effects, batch, |batch|)
                && wakeupCounter == (if readable then 0 else old(wakeupCounter)) + |pendingFunctors|
    {
      hide Reachable, EffectsTo;
      again := TestQuit();
      if again {
        HandleEvents(readable, handled);
        SwapFunctors();
        RunBatch(effects);
      }
    }

    /** `poll` and the event handlers. */
    method HandleEvents(readable: bool, handled: seq<Task>)
      requires Valid() && view.pc == Poll && (readable ==> wakeupCounter > 0)
      modifies this`pendingFunctors, this`wakeupCounter, this`view
      ensures Valid() && view.pc == Handle(false) && view.executed == old(view).executed
      ensures pendingFunctors == old(pendingFunctors) + handled
      ensures wakeupCounter == if readable then 0 else old(wakeupCounter)
    {
      PollReturn(readable);
      if readable {
        HandleRead();
      }
      ReachableInv(view);
      QueueAll(handled);
    }
  }
}
