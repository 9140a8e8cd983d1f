/** Timer/TimerQueue.cc and Timer/Timer.h: the timer objects, the ordered set and the active batch.

    Every method says that the machine of TimerMachine.dfy takes the corresponding step. The clock readings
    are the machine's clock, which advances between methods; a `TimerId` stands for a `Timer*` and `objects`
    for the objects that are not deleted. */
module TimerQueue {
  import opened Options
  import opened TimerMachine

  class Timer {
    var expiration: Time
    const interval: real
    const repeats: bool

    constructor (expiration: Time, interval: real)
      ensures this.expiration == expiration && this.interval == interval && repeats == (interval > 0.0)
    {
      this.expiration, this.interval, repeats := expiration, interval, interval > 0.0;
    }

    method Restart(now: Time)
      modifies this
      ensures expiration == now + Truncated(interval) * 1_000_000
    {
      expiration := AddTime(now, interval);
    }
  }

  /** The value that `ResetTimer` passes to the kernel for a delay in microseconds. */
  datatype TimeSpec = TimeSpec(seconds: int, nanoseconds: int)

  function SpecOf(diff: int): TimeSpec
    requires diff > 0
  {
    TimeSpec(diff / K_MICROSECOND_2_SECOND, diff % K_MICROSECOND_2_SECOND * 1000)
  }

  /** It is the delay exactly, a normal time value, and never the zero that would switch the timer off. */
  lemma SpecIsExact(diff: int)
    requires diff > 0
    ensures var t := SpecOf(diff);
            && t.seconds * 1_000_000_000 + t.nanoseconds == diff * 1000
            && 0 <= t.seconds && 0 <= t.nanoseconds < 1_000_000_000
            && t != TimeSpec(0, 0)
  {
  }

  /** The clock moves on to `t`. */
  function Until(s: Queue, t: Time): Queue {
    if t < s.now then s else Step(s, Tick(t - s.now))
  }

  /** Readings of the clock, one after the other. */
  predicate InOrder(now: Time, readings: seq<Time>) {
    && (forall t | t in readings :: now <= t)
    && (forall i, j | 0 <= i < j < |readings| :: readings[i] <= readings[j])
  }

  /** The first `n` rounds of `ResetTimers`, with what each of them reads from the clock. */
  function Resets(s: Queue, readings: seq<Time>, n: nat): Queue
    requires n <= |readings|
  {
    if n == 0 then s else Step(Until(Resets(s, readings, n - 1), readings[n - 1]), ResetNext)
  }

  /** The due timers are in front of the others. */
  lemma DueSplit(s: Queue)
    requires Reachable(s) && s.pc.Reading?
    ensures var n := DueCount(s.timers, s.now);
            && s.timers[..n] + s.timers[n..] == s.timers
            && (forall e | e in s.timers[..n] :: e.time <= s.now) && (forall e | e in s.timers[n..] :: e.time > s.now)
  {
    hide DueCount, Sorted;
    ReachableInv(s);
    CollectIsExact(s);
  }

  class TimerQueue {
    /** The heap of timers, and the kernel's timer. */
    var objects: map<TimerId, Timer>
    var armed: Option<Arm>

    /** `timers_` in its order, `activeTimers_`, and how many of these `ResetTimers` has treated. */
    var timers: seq<Entry>
    var activeTimers: seq<Entry>
    ghost var treated: nat

    ghost var view: Queue

    /** The objects are the machine's timers. */
    ghost predicate ObjectsAgree()
      reads this, objects.Values
    {
      && (forall id :: id in objects <==> id in view.items && id !in view.deleted)
      && (forall id | id in objects ::
            objects[id].expiration == view.items[id].expiration && objects[id].interval == view.items[id].interval
            && objects[id].repeats == view.items[id].Repeats())
      && (forall i, j | i in objects && j in objects && i != j :: objects[i] != objects[j])
    }

    ghost predicate Valid()
      reads this, objects.Values
    {
      && Reachable(view) && ObjectsAgree()
      && timers == view.timers && armed == view.armed
      && (view.pc.Running? || view.pc.Resetting? ==>
            treated <= |activeTimers| && activeTimers[treated..] == view.active && (view.pc.Running? ==> treated == 0))
    }

    constructor ()
      ensures Valid() && view == INITIAL
    {
      objects, armed, timers, activeTimers, treated, view := map[], None, [], [], 0, INITIAL;
      assert Run([]) == INITIAL;
    }

    /** Time passes. */
    ghost method Pass(t: Time)
      requires Valid()
      modifies this`view
      ensures Valid() && view == Until(old(view), t)
    {
      if t >= view.now {
        ReachableStep(view, Tick(t - view.now));
        view := Until(view, t);
      }
    }

    /** `AddTimer` up to the call of `runInLoop`. */
    method AddTimer(id: TimerId, expiration: Time, interval: real)
      requires Valid() && id !in view.items
      modifies this`objects, this`view
      ensures Valid() && view == Step(old(view), Create(id, expiration, interval))
      ensures objects.Keys == old(objects).Keys + {id} && fresh(objects[id])
      ensures objects[id].expiration == expiration && objects[id].interval == interval
      ensures forall i | i in old(objects) :: objects[i] == old(objects)[i]
    {
      hide Reachable;
      AliveTimers(view);
      ReachableStep(view, Create(id, expiration, interval));
      var timer := new Timer(expiration, interval);
      objects := objects[id := timer];
      view := Step(view, Create(id, expiration, interval));
    }

    /** `AddTimerInloop`, when the clock says `now`. */
    method AddTimerInLoop(id: TimerId, now: Time)
      requires Valid() && id in view.queued && now == view.now && (view.pc.Idle? || view.pc.Running?)
      modifies this`timers, this`armed, this`view
      ensures Valid() && view == Step(old(view), AddInLoop(id)) && id in objects
      ensures var expiration := objects[id].expiration;
              && timers == Placed(old(timers), Entry(expiration, id))
              && armed == if |old(timers)| > 0 && old(timers)[0].time <= expiration then old(armed)
                          else Some(Arm(now, if expiration < now + 100 then now + 100 else expiration))
    {
      hide Reachable, Placed;
      ReachableStep(view, AddInLoop(id));
      AliveTimers(view);
      var resetInstant := Insert(id);
      if resetInstant {
        ResetTimer(objects[id].expiration, now);
      }
      view := Step(view, AddInLoop(id));
    }

    method Insert(id: TimerId) returns (resetInstantly: bool)
      requires id in objects
      modifies this`timers
      ensures timers == Placed(old(timers), Entry(objects[id].expiration, id))
      ensures resetInstantly <==> |old(timers)| == 0 || objects[id].expiration < old(timers)[0].time
    {
      resetInstantly := |timers| == 0 || objects[id].expiration < timers[0].time;
      timers := Placed(timers, Entry(objects[id].expiration, id));
    }

    method ResetTimer(expiration: Time, now: Time)
      requires now == view.now
      modifies this`armed
      ensures armed == Armed(view, expiration).armed
      ensures armed == Some(Arm(now, if expiration < now + 100 then now + 100 else expiration))
    {
      var secondsDiff := expiration - now;
      if secondsDiff < MIN_DIFF {
        secondsDiff := MIN_DIFF;
      }
      var newTime := SpecOf(secondsDiff);
      SpecIsExact(secondsDiff);
      armed := Some(Arm(now, now + newTime.seconds * K_MICROSECOND_2_SECOND + newTime.nanoseconds / 1000));
    }

    /** `ReadFromFd`: the read empties a readable descriptor and fails on another. */
    method ReadFromFd(now: Time)
      requires Valid() && view.pc.Idle? && now == view.now
      modifies this`armed, this`view
      ensures Valid() && view == Step(old(view), ReadFd) && view.pc == Reading && view.passStart == now
      ensures armed == if old(armed).Some? && old(armed).value.deadline <= now then None else old(armed)
    {
      ReachableStep(view, ReadFd);
      if armed.Some? && armed.value.deadline <= now {
        armed := None;
      }
      view := Step(view, ReadFd);
    }

    /** `HandleRead` from its reading of the clock up to the loop that runs the callbacks. */
    method CollectDue(expirationTime: Time)
      requires Valid() && view.pc.Reading? && expirationTime == view.now
      modifies this`timers, this`activeTimers, this`treated, this`view
      ensures Valid() && view == Step(old(view), Collect) && activeTimers == view.active
      ensures activeTimers + timers == old(timers)
      ensures forall e | e in activeTimers :: e.time <= expirationTime
      ensures forall e | e in timers :: e.time > expirationTime
    {
      DueSplit(view);
      ReachableStep(view, Collect);
      var end := DueCount(timers, expirationTime);
      activeTimers := timers[..end];
      timers := timers[end..];
      treated := 0;
      view := Step(view, Collect);
    }

    /** One round of that loop: the callback of `id` starts, or the loop ends. */
    method RunNextTimer(round: nat, now: Time) returns (more: bool, id: TimerId)
      requires Valid() && view.pc == Running(round) && now == view.now
      modifies this`view
      ensures Valid() && (more <==> round < |activeTimers|)
      ensures more ==> view == Step(old(view), RunNext) && id == activeTimers[round].id
                       && view.log == old(view).log + [Ran(id, activeTimers[round].time, now)]
      ensures !more ==> view == Step(old(view), EndRuns)
    {
      more, id := round < |activeTimers|, 0;
      ReachableStep(view, RunNext);
      ReachableStep(view, EndRuns);
      if more {
        id := activeTimers[round].id;
        view := Step(view, RunNext);
      } else {
        view := Step(view, EndRuns);
      }
    }

    /** One round of the loop in `ResetTimers`: a repeating timer goes back into the set, at the whole seconds of
        its interval from now, and another is deleted. */
    method ResetActive(i: nat, now: Time)
      requires Valid() && view.pc.Resetting? && i == treated < |activeTimers| && now == view.now
      modifies this`objects, this`timers, this`treated, this`view, objects.Values
      ensures Valid() && view == Step(old(view), ResetNext)
      ensures treated == i + 1 && objects.Values <= old(objects.Values) && activeTimers[i].id in old(objects)
      ensures var id := activeTimers[i].id;
              var timer := old(objects)[id];
              if timer.repeats then
                && objects == old(objects) && timer.expiration == now + Truncated(timer.interval) * 1_000_000
                && timers == Placed(old(timers), Entry(timer.expiration, id))
              else objects == old(objects) - {id} && timers == old(timers)
    {
      hide Reachable, Placed;
      AliveTimers(view);
      ReachableStep(view, ResetNext);
      var id := activeTimers[i].id;
      assert view.active[0].id == id;
      assert activeTimers[treated + 1..] == view.active[1..];
      var timer := objects[id];
      if timer.repeats {
        timer.Restart(now);
        var _ := Insert(id);
      } else {
        objects := objects - {id};
      }
      treated := treated + 1;
      view := Step(view, ResetNext);
    }

    /** The end of `ResetTimers`. */
    method RearmEarliest(now: Time)
      requires Valid() && view.pc.Resetting? && treated == |activeTimers| && now == view.now
      modifies this`armed, this`view
      ensures Valid() && view == Step(old(view), EndResets)
      ensures armed == if |timers| == 0 then old(armed)
                       else Some(Arm(now, if timers[0].time < now + 100 then now + 100 else timers[0].time))
    {
      ReachableStep(view, EndResets);
      assert view.active == [];
      if |timers| > 0 {
        ResetTimer(timers[0].time, now);
      }
      view := Step(view, EndResets);
    }

    method ResetRound(i: nat, now: Time)
      requires Valid() && view.pc.Resetting? && i == treated < |activeTimers| && view.now <= now
      modifies this`objects, this`timers, this`treated, this`view, objects.Values
      ensures Valid() && view == Step(Until(old(view), now), ResetNext)
      ensures view.pc.Resetting? && view.now == now && treated == i + 1 && objects.Values <= old(objects.Values)
    {
      Pass(now);
      ResetActive(i, now);
    }

    /** The loop in `ResetTimers`, reading the clock once in every round. */
    method ResetLoop(readings: seq<Time>)
      requires Valid() && view.pc.Resetting? && treated == 0 && |activeTimers| <= |readings|
      requires InOrder(view.now, readings)
      modifies this`objects, this`timers, this`treated, this`view, objects.Values
      ensures Valid() && view == Resets(old(view), readings, |activeTimers|)
      ensures view.pc.Resetting? && treated == |activeTimers|
      ensures forall t | t in readings[|activeTimers|..] :: view.now <= t
    {
      var i := 0;
      while i < |activeTimers|
        invariant 0 <= i <= |activeTimers| && i == treated
        invariant Valid() && view.pc.Resetting?
        invariant view == Resets(old(view), readings, i)
        invariant forall t | t in readings[i..] :: view.now <= t
        invariant objects.Values <= old(objects.Values)
      {
        assert readings[i] in readings[i..];
        ResetRound(i, readings[i]);
        i := i + 1;
      }
    }

    /** `ResetTimers`, reading the clock once more at the end. */
    method ResetTimers(readings: seq<Time>)
      requires Valid() && view.pc.Resetting? && treated == 0 && |readings| == |activeTimers| + 1
      requires InOrder(view.now, readings)
      modifies this, objects.Values
      ensures Valid()
      ensures var n := |readings| - 1;
              view == Step(Until(Resets(old(view), readings, n), readings[n]), EndResets)
    {
      var last := readings[|activeTimers|];
      ResetLoop(readings);
      assert last in readings[|activeTimers|..];
      Pass(last);
      RearmEarliest(last);
    }
  }
}
