/** The timers of one loop as a state machine: Timer/TimerQueue.cc, Timer/Timer.h and Base/TimeStamp.cc.

    One clock in microseconds, which may advance between any two steps. `HandleRead` is cut where it reads
    the clock or calls a callback, since a callback may add timers again. */
module TimerMachine {
  import opened Options

  type Time = int
  type TimerId = nat

  const K_MICROSECOND_2_SECOND: int := 1000 * 1000
  const MIN_DIFF: int := 100

  /** A floating-point number cast to an integer: the fraction is dropped. */
  function Truncated(x: real): int {
    if x >= 0.0 then x.Floor else -((-x).Floor)
  }

  /** `TimeStamp::AddTime`: only whole seconds are added. */
  function AddTime(t: Time, seconds: real): Time {
    t + Truncated(seconds) * K_MICROSECOND_2_SECOND
  }

  /** It is the last whole second before `t + seconds`, or the first one after it for a negative wait. */
  lemma AddTimeDropsTheFraction(t: Time, seconds: real)
    ensures var added := (AddTime(t, seconds) - t) as real;
            if seconds >= 0.0 then 0.0 <= added <= seconds * 1_000_000.0 < added + 1_000_000.0
            else added - 1_000_000.0 < seconds * 1_000_000.0 <= added <= 0.0
  {
  }

  /** A timer object; it repeats when its interval is positive. */
  datatype Item = Item(expiration: Time, interval: real) {
    predicate Repeats() {
      interval > 0.0
    }

    /** The whole seconds of the interval, in microseconds. */
    function Gap(): int {
      Truncated(interval) * K_MICROSECOND_2_SECOND
    }
  }

  /** An element of the ordered set; the identity stands for the pointer. */
  datatype Entry = Entry(time: Time, id: TimerId)

  predicate Less(a: Entry, b: Entry) {
    a.time < b.time || (a.time == b.time && a.id < b.id)
  }

  ghost predicate Sorted(s: seq<Entry>) {
    forall i, j | 0 <= i < j < |s| :: Less(s[i], s[j])
  }

  /** When the kernel timer was set and when it fires. */
  datatype Arm = Arm(at: Time, deadline: Time)

  /** A run of a callback: the expiration it was collected with and the time it started. */
  datatype Ran = Ran(id: TimerId, due: Time, at: Time)

  /** Where the loop's thread stands in `HandleRead`. */
  datatype Pc = Idle | Reading | Running(done: nat) | Resetting

  /** `items` holds every timer ever created, `queued` those whose `AddTimerInloop` has not run, `active` those
      of the current batch that `ResetTimers` has not put back or deleted, `passStart` when the current or last
      `HandleRead` started. */
  datatype Queue = Queue(
    now: Time, items: map<TimerId, Item>, deleted: set<TimerId>, queued: set<TimerId>,
    timers: seq<Entry>, active: seq<Entry>, pc: Pc, passStart: Time, armed: Option<Arm>,
    log: seq<Ran>)

  const INITIAL := Queue(0, map[], {}, {}, [], [], Idle, 0, None, [])

  // ---------------------------------------------------------------- the ordered set

  function Placed(s: seq<Entry>, e: Entry): seq<Entry> {
    if |s| == 0 || Less(e, s[0]) then [e] + s else [s[0]] + Placed(s[1..], e)
  }

  lemma {:induction false} PlacedHas(s: seq<Entry>, e: Entry)
    ensures |Placed(s, e)| == |s| + 1
    ensures forall x :: x in Placed(s, e) <==> x in s || x == e
    ensures Placed(s, e)[0] == if |s| == 0 || Less(e, s[0]) then e else s[0]
  {
    if !(|s| == 0 || Less(e, s[0])) {
      PlacedHas(s[1..], e);
      assert s == [s[0]] + s[1..];
    }
  }

  lemma {:induction false} PlacedIsSorted(s: seq<Entry>, e: Entry)
    requires Sorted(s) && e !in s
    ensures Sorted(Placed(s, e))
  {
    PlacedHas(s, e);
    if |s| > 0 && !Less(e, s[0]) {
      var rest := Placed(s[1..], e);
      PlacedHas(s[1..], e);
      PlacedIsSorted(s[1..], e);
      assert e != s[0];
      forall j | 0 <= j < |rest|
        ensures Less(s[0], rest[j])
      {
        assert rest[j] in rest;
      }
    }
  }

  /** The distance of `lower_bound` for the largest entry at time `t`: how many entries are due. */
  function DueCount(s: seq<Entry>, t: Time): (n: nat)
    ensures n <= |s|
  {
    if |s| == 0 || s[0].time > t then 0 else 1 + DueCount(s[1..], t)
  }

  lemma {:induction false} DueIsExact(s: seq<Entry>, t: Time)
    requires Sorted(s)
    ensures forall i | 0 <= i < |s| :: s[i].time <= t <==> i < DueCount(s, t)
  {
    if |s| > 0 && s[0].time <= t {
      DueIsExact(s[1..], t);
      assert forall i | 1 <= i < |s| :: s[i] == s[1..][i - 1];
    }
  }

  // ---------------------------------------------------------------- steps

  datatype Event =
    | Tick(elapsed: nat) | Create(id: TimerId, expiration: Time, interval: real) | AddInLoop(id: TimerId)
    | ReadFd | Collect | RunNext | EndRuns | ResetNext | EndResets

  predicate Readable(s: Queue) {
    s.armed.Some? && s.armed.value.deadline <= s.now
  }

  /** `ResetTimer` for an expiration. */
  function Armed(s: Queue, expiration: Time): Queue {
    var diff := if expiration - s.now < MIN_DIFF then MIN_DIFF else expiration - s.now;
    s.(armed := Some(Arm(s.now, s.now + diff)))
  }

  /** `AddTimerInloop`: the kernel timer is set again when the new timer is the earliest. */
  function AddStep(s: Queue, id: TimerId): Queue
    requires id in s.items
  {
    var e := Entry(s.items[id].expiration, id);
    var s' := s.(queued := s.queued - {id}, timers := Placed(s.timers, e));
    if |s.timers| == 0 || e.time < s.timers[0].time then Armed(s', e.time) else s'
  }

  function CollectStep(s: Queue): Queue {
    var n := DueCount(s.timers, s.now);
    s.(active := s.timers[..n], timers := s.timers[n..], pc := Running(0))
  }

  /** One round of the loop in `ResetTimers`. */
  function ResetStep(s: Queue): Queue
    requires |s.active| > 0 && s.active[0].id in s.items
  {
    var id := s.active[0].id;
    var item := s.items[id];
    var s' := s.(active := s.active[1..]);
    if item.Repeats() then
      var expiration := AddTime(s.now, item.interval);
      s'.(items := s.items[id := item.(expiration := expiration)], timers := Placed(s.timers, Entry(expiration, id)))
    else s'.(deleted := s.deleted + {id})
  }

  /** Any event at any time; one that the thread's position does not allow changes nothing. The channel may
      call `HandleRead` even when the descriptor has nothing to read: another handler of the same round may
      have set the kernel timer again. */
  function Step(s: Queue, e: Event): Queue {
    match e
    case Tick(elapsed) => s.(now := s.now + elapsed)
    case Create(id, expiration, interval) =>
      if id in s.items then s
      else s.(items := s.items[id := Item(expiration, interval)], queued := s.queued + {id})
    case AddInLoop(id) =>
      if id !in s.queued || id !in s.items || !(s.pc.Idle? || s.pc.Running?) then s else AddStep(s, id)
    case ReadFd =>
      if s.pc != Idle then s else s.(pc := Reading, passStart := s.now, armed := if Readable(s) then None else s.armed)
    case Collect => if s.pc != Reading then s else CollectStep(s)
    case RunNext =>
      if !s.pc.Running? || s.pc.done >= |s.active| then s
      else
        var e := s.active[s.pc.done];
        s.(log := s.log + [Ran(e.id, e.time, s.now)], pc := Running(s.pc.done + 1))
    case EndRuns => if !s.pc.Running? || s.pc.done < |s.active| then s else s.(pc := Resetting)
    case ResetNext =>
      if s.pc != Resetting || |s.active| == 0 || s.active[0].id !in s.items then s else ResetStep(s)
    case EndResets =>
      if s.pc != Resetting || |s.active| > 0 then s
      else
        var s' := s.(pc := Idle);
        if |s.timers| > 0 then Armed(s', s.timers[0].time) else s'
  }

  function RunTo(es: seq<Event>, n: nat): Queue
    requires n <= |es|
  {
    if n == 0 then INITIAL else Step(RunTo(es, n - 1), es[n - 1])
  }

  function Run(es: seq<Event>): Queue {
    RunTo(es, |es|)
  }

  // ---------------------------------------------------------------- the invariant

  ghost predicate InSet(s: Queue, id: TimerId) {
    id in s.items && Entry(s.items[id].expiration, id) in s.timers
  }

  ghost predicate InBatch(s: Queue, id: TimerId) {
    id in s.items && Entry(s.items[id].expiration, id) in s.active
  }

  /** In how many of the four places the timer is. */
  ghost function Places(s: Queue, id: TimerId): nat {
    (if id in s.queued then 1 else 0) + (if InSet(s, id) then 1 else 0)
    + (if InBatch(s, id) then 1 else 0) + (if id in s.deleted then 1 else 0)
  }

  /** Entries carry the expiration of their timer. */
  ghost predicate EntriesFit(s: Queue, entries: seq<Entry>) {
    forall e | e in entries :: e.id in s.items && s.items[e.id].expiration == e.time
  }

  ghost predicate OwnershipFits(s: Queue) {
    && (forall id :: Places(s, id) == if id in s.items then 1 else 0)
    && EntriesFit(s, s.timers) && EntriesFit(s, s.active)
  }

  ghost predicate OrderFits(s: Queue) {
    && Sorted(s.timers) && Sorted(s.active)
    && (s.pc.Idle? || s.pc.Reading? ==> s.active == [])
    && (s.pc.Running? ==> s.pc.done <= |s.active|)
    && (forall e | e in s.active :: e.time <= s.now)
  }

  ghost predicate ArmFits(s: Queue) {
    s.pc.Idle? && |s.timers| > 0 ==>
      && s.armed.Some? && s.armed.value.at <= s.now
      && s.timers[0].time <= s.armed.value.deadline
      && (s.armed.value.deadline <= s.timers[0].time || s.armed.value.deadline <= s.armed.value.at + MIN_DIFF)
  }

  ghost predicate HasRun(log: seq<Ran>, id: TimerId) {
    exists i :: 0 <= i < |log| && log[i].id == id
  }

  /** Every run of this timer in the log is followed by its gap before time `t`. */
  ghost predicate Spaced(s: Queue, id: TimerId, t: Time)
    requires id in s.items
  {
    forall i | 0 <= i < |s.log| && s.log[i].id == id :: s.items[id].Repeats() && s.log[i].at + s.items[id].Gap() <= t
  }

  /** Runs are not early, a second run is a repeat, and the gap lies in between. */
  ghost predicate LogFits(s: Queue) {
    && (forall r | r in s.log :: r.id in s.items && r.due <= r.at <= s.now)
    && (forall i, j | 0 <= i < j < |s.log| && s.log[i].id == s.log[j].id && s.log[i].id in s.items ::
          s.items[s.log[i].id].Repeats() && s.log[i].at + s.items[s.log[i].id].Gap() <= s.log[j].due)
  }

  /** What the log says about timers that have yet to run. */
  ghost predicate ComingFits(s: Queue) {
    && (forall id | id in s.queued :: !HasRun(s.log, id))
    && (forall e | e in s.timers :: e.id in s.items && Spaced(s, e.id, e.time))
    && (forall i | 0 <= i < |s.active| && s.pc.Running? && s.pc.done <= i ::
          s.active[i].id in s.items && Spaced(s, s.active[i].id, s.active[i].time))
  }

  /** And about those that have run. */
  ghost predicate PastFits(s: Queue) {
    && (forall id | id in s.deleted :: id in s.items && !s.items[id].Repeats() && HasRun(s.log, id))
    && (forall i | 0 <= i < |s.active| && s.pc.Running? && i < s.pc.done :: HasRun(s.log, s.active[i].id))
    && (s.pc.Resetting? ==> forall e | e in s.active :: HasRun(s.log, e.id))
  }

  ghost predicate Inv(s: Queue) {
    OwnershipFits(s) && OrderFits(s) && ArmFits(s) && LogFits(s) && ComingFits(s) && PastFits(s)
  }

  lemma AddKeepsOwnership(s: Queue, id: TimerId)
    requires OwnershipFits(s) && OrderFits(s) && id in s.queued && id in s.items
    ensures OwnershipFits(AddStep(s, id)) && OrderFits(AddStep(s, id))
  {
    var e := Entry(s.items[id].expiration, id);
    assert Places(s, id) == 1;
    PlacedHas(s.timers, e);
    PlacedIsSorted(s.timers, e);
    var s' := AddStep(s, id);
    forall x
      ensures Places(s', x) == if x in s'.items then 1 else 0
    {
      assert Places(s, x) == if x in s.items then 1 else 0;
    }
  }

  lemma SplitSorted(s: seq<Entry>, n: nat)
    requires Sorted(s) && n <= |s|
    ensures Sorted(s[..n]) && Sorted(s[n..])
    ensures forall e :: e in s <==> e in s[..n] || e in s[n..]
    ensures forall e :: !(e in s[..n] && e in s[n..])
  {
  }

  lemma CollectKeepsOwnership(s: Queue)
    requires OwnershipFits(s) && OrderFits(s) && s.pc.Reading?
    ensures OwnershipFits(CollectStep(s))
  {
  }

  lemma CollectKeepsOrder(s: Queue)
    requires OrderFits(s) && s.pc.Reading?
    ensures OrderFits(CollectStep(s))
  {
    SplitSorted(s.timers, DueCount(s.timers, s.now));
    DueIsExact(s.timers, s.now);
  }

  /** The next timer to be put back has no other entry. */
  lemma NextIsApart(s: Queue)
    requires OwnershipFits(s) && OrderFits(s) && |s.active| > 0
    ensures var id := s.active[0].id;
            && id in s.items && InBatch(s, id)
            && (forall x | x in s.active[1..] || x in s.timers :: x.id != id)
  {
    var e := s.active[0];
    assert e in s.active;
    assert s.active == [e] + s.active[1..];
    assert e !in s.active[1..];
    assert InBatch(s, e.id) && Places(s, e.id) == 1;
  }

  lemma ResetKeepsOrder(s: Queue)
    requires OwnershipFits(s) && OrderFits(s) && s.pc.Resetting? && |s.active| > 0
    ensures s.active[0].id in s.items && OrderFits(ResetStep(s))
  {
    NextIsApart(s);
    var id := s.active[0].id;
    PlacedIsSorted(s.timers, Entry(AddTime(s.now, s.items[id].interval), id));
  }

  lemma ResetKeepsOwnership(s: Queue)
    requires OwnershipFits(s) && OrderFits(s) && s.pc.Resetting? && |s.active| > 0
    ensures s.active[0].id in s.items && OwnershipFits(ResetStep(s))
  {
    NextIsApart(s);
    var id, s' := s.active[0].id, ResetStep(s);
    assert s.active == [s.active[0]] + s'.active;
    PlacedHas(s.timers, Entry(AddTime(s.now, s.items[id].interval), id));
    forall x
      ensures Places(s', x) == if x in s'.items then 1 else 0
    {
      assert Places(s, x) == if x in s.items then 1 else 0;
    }
  }

  lemma AddKeepsInv(s: Queue, id: TimerId)
    requires Inv(s) && id in s.queued && id in s.items && (s.pc.Idle? || s.pc.Running?)
    ensures Inv(AddStep(s, id))
  {
    AddKeepsOwnership(s, id);
    PlacedHas(s.timers, Entry(s.items[id].expiration, id));
    assert !HasRun(s.log, id);
  }

  lemma CollectKeepsInv(s: Queue)
    requires Inv(s) && s.pc.Reading?
    ensures Inv(CollectStep(s))
  {
    CollectKeepsOwnership(s);
    CollectKeepsOrder(s);
    SplitSorted(s.timers, DueCount(s.timers, s.now));
    assert forall e | e in CollectStep(s).active :: e in s.timers;
  }

  lemma RunKeepsLog(s: Queue)
    requires Inv(s) && s.pc.Running? && s.pc.done < |s.active|
    ensures LogFits(Step(s, RunNext))
  {
  }

  lemma RunKeepsComing(s: Queue)
    requires Inv(s) && s.pc.Running? && s.pc.done < |s.active|
    ensures ComingFits(Step(s, RunNext))
  {
  }

  lemma RunKeepsPast(s: Queue)
    requires Inv(s) && s.pc.Running? && s.pc.done < |s.active|
    ensures PastFits(Step(s, RunNext))
  {
    var s' := Step(s, RunNext);
    assert s'.log[|s.log|].id == s.active[s.pc.done].id;
    forall id | HasRun(s.log, id)
      ensures HasRun(s'.log, id)
    {
      var i :| 0 <= i < |s.log| && s.log[i].id == id;
      assert s'.log[i].id == id;
    }
  }

  lemma ResetKeepsInv(s: Queue)
    requires Inv(s) && s.pc.Resetting? && |s.active| > 0
    ensures s.active[0].id in s.items && Inv(ResetStep(s))
  {
    ResetKeepsOwnership(s);
    ResetKeepsOrder(s);
    ResetKeepsLog(s);
  }

  lemma ResetKeepsLog(s: Queue)
    requires Inv(s) && s.pc.Resetting? && |s.active| > 0 && s.active[0].id in s.items
    ensures LogFits(ResetStep(s)) && ComingFits(ResetStep(s)) && PastFits(ResetStep(s))
  {
    var e, s' := s.active[0], ResetStep(s);
    assert e in s.active && HasRun(s.log, e.id);
    assert InBatch(s, e.id) && Places(s, e.id) == 1;
    var item := s.items[e.id];
    assert forall x | x in s'.active :: x in s.active;
    if item.Repeats() {
      var e' := Entry(AddTime(s.now, item.interval), e.id);
      PlacedHas(s.timers, e');
      forall x | x in s'.timers
        ensures Spaced(s', x.id, x.time)
      {
        if x != e' {
          assert x in s.timers && x.id != e.id && Spaced(s, x.id, x.time);
        }
      }
    }
  }

  lemma StepKeepsInv(s: Queue, e: Event)
    requires Inv(s)
    ensures Inv(Step(s, e))
  {
    match e {
      case AddInLoop(id) =>
        if id in s.queued && id in s.items && (s.pc.Idle? || s.pc.Running?) { AddKeepsInv(s, id); }
      case Collect => if s.pc.Reading? { CollectKeepsInv(s); }
      case RunNext =>
        if s.pc.Running? && s.pc.done < |s.active| {
          RunKeepsLog(s);
          RunKeepsComing(s);
          RunKeepsPast(s);
          RunKeepsOwnership(s);
        }
      case ResetNext => if s.pc.Resetting? && |s.active| > 0 { ResetKeepsInv(s); }
      case Create(id, expiration, interval) => CreateKeepsInv(s, id, Item(expiration, interval));
      case _ => OtherStepsKeepInv(s, e);
    }
  }

  lemma RunKeepsOwnership(s: Queue)
    requires OwnershipFits(s) && s.pc.Running? && s.pc.done < |s.active|
    ensures OwnershipFits(Step(s, RunNext))
  {
  }

  lemma CreateKeepsInv(s: Queue, id: TimerId, item: Item)
    requires Inv(s)
    ensures Inv(Step(s, Create(id, item.expiration, item.interval)))
  {
    if id !in s.items {
      var s' := Step(s, Create(id, item.expiration, item.interval));
      assert Places(s, id) == 0;
      forall x
        ensures Places(s', x) == if x in s'.items then 1 else 0
      {
        assert Places(s, x) == if x in s.items then 1 else 0;
      }
    }
  }

  lemma OtherStepsKeepInv(s: Queue, e: Event)
    requires Inv(s) && (e.Tick? || e.ReadFd? || e.EndRuns? || e.EndResets?)
    ensures Inv(Step(s, e))
  {
    var s' := Step(s, e);
    assert forall x :: Places(s', x) == Places(s, x);
  }

  lemma {:induction false} RunKeepsInv(es: seq<Event>, n: nat)
    requires n <= |es|
    ensures Inv(RunTo(es, n))
  {
    if n > 0 {
      RunKeepsInv(es, n - 1);
      StepKeepsInv(RunTo(es, n - 1), es[n - 1]);
    }
  }

  /** The states of all runs. */
  ghost predicate Reachable(s: Queue) {
    exists es :: Run(es) == s
  }

  lemma RunNextStep(es: seq<Event>, n: nat)
    requires n < |es|
    ensures RunTo(es, n + 1) == Step(RunTo(es, n), es[n])
  {
  }

  lemma {:induction false} RunToPrefix(es: seq<Event>, e: Event, n: nat)
    requires n <= |es|
    ensures RunTo(es + [e], n) == RunTo(es, n)
  {
    if n > 0 {
      RunToPrefix(es, e, n - 1);
    }
  }

  lemma RunSnoc(es: seq<Event>, e: Event)
    ensures Run(es + [e]) == Step(Run(es), e)
  {
    RunToPrefix(es, e, |es|);
    RunNextStep(es + [e], |es|);
  }

  lemma ReachableStep(s: Queue, e: Event)
    requires Reachable(s)
    ensures Reachable(Step(s, e))
  {
    var es :| Run(es) == s;
    RunSnoc(es, e);
  }

  lemma ReachableInv(s: Queue)
    requires Reachable(s)
    ensures Inv(s)
  {
    var es :| Run(es) == s;
    RunKeepsInv(es, |es|);
  }

  /** A timer that waits to be inserted, and the next one of the batch to be put back, are not deleted. */
  lemma AliveTimers(s: Queue)
    requires Reachable(s)
    ensures forall id | id in s.deleted :: id in s.items
    ensures forall id | id in s.queued :: id in s.items && id !in s.deleted
    ensures |s.active| > 0 ==> s.active[0].id in s.items && s.active[0].id !in s.deleted
  {
    ReachableInv(s);
    forall id | id in s.queued
      ensures id in s.items && id !in s.deleted
    {
      assert Places(s, id) == if id in s.items then 1 else 0;
    }
    if |s.active| > 0 {
      var e := s.active[0];
      assert e in s.active && InBatch(s, e.id) && Places(s, e.id) == 1;
    }
  }

  // ---------------------------------------------------------------- main results

  /** In every run, callbacks that add timers again included, every timer is in exactly one place: waiting to
      be inserted, in the set, in the current batch, or deleted; and only one-shots that have run are
      deleted. */
  lemma EachTimerHasOnePlace(es: seq<Event>, id: TimerId)
    ensures Places(Run(es), id) == if id in Run(es).items then 1 else 0
    ensures id in Run(es).deleted ==> id in Run(es).items && !Run(es).items[id].Repeats() && HasRun(Run(es).log, id)
  {
    RunKeepsInv(es, |es|);
  }

  /** No callback runs early: not before the expiration it was collected with. */
  lemma NoTimerRunsEarly(es: seq<Event>, i: nat)
    requires i < |Run(es).log|
    ensures var s, r := Run(es), Run(es).log[i]; r.id in s.items && r.due <= r.at <= s.now
  {
    RunKeepsInv(es, |es|);
    assert Run(es).log[i] in Run(es).log;
  }

  /** A one-shot runs at most once, and two runs of a repeating timer are at least the
      whole seconds of its interval apart. */
  lemma RunsAreSpaced(es: seq<Event>, i: nat, j: nat)
    requires i < j < |Run(es).log| && Run(es).log[i].id == Run(es).log[j].id
    ensures var s, r, r' := Run(es), Run(es).log[i], Run(es).log[j];
            && r.id in s.items && s.items[r.id].Repeats()
            && r.at + s.items[r.id].Gap() <= r'.due <= r'.at
  {
    RunKeepsInv(es, |es|);
    assert Run(es).log[i] in Run(es).log && Run(es).log[j] in Run(es).log;
  }

  /** The log continues `before` with the first `done` entries of the batch. */
  ghost predicate Continues(log: seq<Ran>, before: seq<Ran>, batch: seq<Entry>, done: nat) {
    && done <= |batch| && |log| == |before| + done && log[..|before|] == before
    && (forall i | 0 <= i < done :: log[|before| + i].id == batch[i].id && log[|before| + i].due == batch[i].time)
  }

  ghost predicate RanSoFar(s: Queue, before: Queue, batch: seq<Entry>) {
    s.pc.Running? && s.active == batch && Continues(s.log, before.log, batch, s.pc.done)
  }

  /** `HandleRead` collects the batch in step `n`. */
  predicate Collects(es: seq<Event>, n: nat) {
    n < |es| && es[n] == Collect && RunTo(es, n).pc.Reading?
  }

  /** After each number of steps from `j` to `k` the batch is still running. */
  predicate StaysRunning(es: seq<Event>, j: nat, k: nat)
    requires j <= k <= |es|
  {
    RunTo(es, k).pc.Running? && (j < k ==> StaysRunning(es, j, k - 1))
  }

  lemma BatchStep(s: Queue, e: Event, before: Queue, batch: seq<Entry>)
    requires RanSoFar(s, before, batch) && Step(s, e).pc.Running?
    ensures RanSoFar(Step(s, e), before, batch)
  {
  }

  lemma BatchStarts(s: Queue)
    requires s.pc.Reading?
    ensures Step(s, Collect) == CollectStep(s) && RanSoFar(CollectStep(s), s, CollectStep(s).active)
  {
  }

  lemma {:induction false} BatchProgress(es: seq<Event>, n: nat, k: nat)
    requires n < k <= |es| && Collects(es, n) && StaysRunning(es, n + 1, k)
    ensures RanSoFar(RunTo(es, k), RunTo(es, n), CollectStep(RunTo(es, n)).active)
  {
    var s := RunTo(es, k - 1);
    RunNextStep(es, k - 1);
    if k - 1 == n {
      BatchStarts(s);
    } else {
      BatchProgress(es, n, k - 1);
      BatchStep(s, es[k - 1], RunTo(es, n), CollectStep(RunTo(es, n)).active);
    }
  }

  lemma CollectIsExact(s: Queue)
    requires OrderFits(s) && s.pc.Reading?
    ensures var s' := CollectStep(s);
            && Sorted(s'.active)
            && (forall e :: e in s'.active <==> e in s.timers && e.time <= s.now)
            && (forall e :: e in s'.timers <==> e in s.timers && e.time > s.now)
  {
    DueIsExact(s.timers, s.now);
    SplitSorted(s.timers, DueCount(s.timers, s.now));
  }

  /** Each `HandleRead` takes out of the set exactly the timers due at its reading of the clock, and by the
      time it ends its runs it has run each of them once, in the order of time and identity, and no other,
      whatever the callbacks add meanwhile. */
  lemma HandleReadRunsExactlyTheDue(es: seq<Event>, n: nat, k: nat)
    requires n < k <= |es| && Collects(es, n) && StaysRunning(es, n + 1, k)
    requires RunTo(es, k).pc == Running(|RunTo(es, k).active|)
    ensures var s, s', batch := RunTo(es, n), RunTo(es, k), CollectStep(RunTo(es, n)).active;
            && RunTo(es, n + 1) == CollectStep(s)
            && Sorted(batch)
            && (forall e :: e in batch <==> e in s.timers && e.time <= s.now)
            && (forall e :: e in CollectStep(s).timers <==> e in s.timers && e.time > s.now)
            && Continues(s'.log, s.log, batch, |batch|)
  {
    RunKeepsInv(es, n);
    BatchProgress(es, n, k);
    CollectIsExact(RunTo(es, n));
    RunNextStep(es, n);
  }

  /** The kernel timer never oversleeps: outside `HandleRead`, while the set is not empty, the descriptor is
      readable or will be by the earliest expiration or 100 microseconds after it was set, whichever is later;
      and it does not become readable before a timer is due. */
  lemma KernelTimerNeverOversleeps(es: seq<Event>)
    requires Run(es).pc.Idle? && |Run(es).timers| > 0
    ensures var s := Run(es);
            && s.armed.Some? && s.armed.value.at <= s.now
            && (s.armed.value.deadline <= s.timers[0].time
                || s.armed.value.deadline <= s.armed.value.at + MIN_DIFF)
            && (Readable(s) <==> s.armed.value.deadline <= s.now)
            && (Readable(s) ==> s.timers[0].time <= s.now)
            && (forall e | e in s.timers :: s.timers[0].time <= e.time)
  {
    RunKeepsInv(es, |es|);
    var s := Run(es);
    forall e | e in s.timers
      ensures s.timers[0].time <= e.time
    {
      var i :| 0 <= i < |s.timers| && s.timers[i] == e;
      assert i > 0 ==> Less(s.timers[0], s.timers[i]);
    }
  }

  // ---------------------------------------------------------------- how late a callback starts

  /** The bounds of a loop that keeps up: a timer is inserted at most `queueing` after it expires, a pass from
      `ReadFd` to `EndResets` takes at most `pass`, and a readable descriptor is read within `late`. */
  datatype Pace = Pace(queueing: nat, pass: nat, late: nat) {
    /** How late the kernel timer may be set, relative to the earliest expiration. */
    function Arming(): nat {
      MIN_DIFF + queueing + pass
    }
  }

  /** The step is within the bounds. */
  predicate Timely(s: Queue, e: Event, p: Pace) {
    match e
    case AddInLoop(id) => id in s.queued && id in s.items ==> s.now <= s.items[id].expiration + p.queueing
    case RunNext => s.pc.Running? ==> s.now <= s.passStart + p.pass
    case EndResets => s.pc.Resetting? ==> s.now <= s.passStart + p.pass
    case ReadFd => s.pc.Idle? && s.armed.Some? ==> s.now <= s.armed.value.deadline + p.late
    case _ => true
  }

  predicate TimelyTo(es: seq<Event>, n: nat, p: Pace)
    requires n <= |es|
  {
    n > 0 ==> TimelyTo(es, n - 1, p) && Timely(RunTo(es, n - 1), es[n - 1], p)
  }

  /** No entry is older than `t`. */
  ghost predicate NotBefore(entries: seq<Entry>, t: Time) {
    forall e | e in entries :: t <= e.time
  }

  ghost predicate Punctual(s: Queue, p: Pace) {
    && (s.pc.Idle? && |s.timers| > 0 ==>
          s.armed.Some? && s.armed.value.deadline <= s.timers[0].time + p.Arming())
    && (!s.pc.Idle? ==> s.passStart <= s.now)
    && (s.pc.Reading? ==> NotBefore(s.timers, s.passStart - p.Arming() - p.late))
    && (s.pc.Running? ==> NotBefore(s.active, s.passStart - p.Arming() - p.late))
    && (s.pc.Running? || s.pc.Resetting? ==> NotBefore(s.timers, s.passStart - p.queueing))
    && (forall r | r in s.log :: r.at <= r.due + p.Arming() + p.late + p.pass)
  }

  lemma EarliestIsFirst(s: Queue)
    requires Sorted(s.timers) && |s.timers| > 0
    ensures NotBefore(s.timers, s.timers[0].time)
  {
    forall e | e in s.timers
      ensures s.timers[0].time <= e.time
    {
      var i :| 0 <= i < |s.timers| && s.timers[i] == e;
      assert i > 0 ==> Less(s.timers[0], s.timers[i]);
    }
  }

  lemma AddIsPunctual(s: Queue, id: TimerId, p: Pace)
    requires Inv(s) && Punctual(s, p) && Timely(s, AddInLoop(id), p)
    requires id in s.queued && id in s.items && (s.pc.Idle? || s.pc.Running?)
    ensures Punctual(AddStep(s, id), p)
  {
    PlacedHas(s.timers, Entry(s.items[id].expiration, id));
  }

  lemma ResetIsPunctual(s: Queue, p: Pace)
    requires Inv(s) && Punctual(s, p) && s.pc.Resetting? && |s.active| > 0 && s.active[0].id in s.items
    ensures Punctual(ResetStep(s), p)
  {
    var id := s.active[0].id;
    var e := Entry(AddTime(s.now, s.items[id].interval), id);
    PlacedHas(s.timers, e);
  }

  lemma OtherStepsArePunctual(s: Queue, e: Event, p: Pace)
    requires Inv(s) && Punctual(s, p) && Timely(s, e, p)
    requires e.ReadFd? || e.RunNext? || e.EndResets? || e.Collect?
    ensures Punctual(Step(s, e), p)
  {
    if |s.timers| > 0 {
      EarliestIsFirst(s);
    }
    if e.RunNext? && s.pc.Running? && s.pc.done < |s.active| {
      assert s.active[s.pc.done] in s.active;
    } else if e.Collect? && s.pc.Reading? {
      CollectIsExact(s);
    }
  }

  lemma StepIsPunctual(s: Queue, e: Event, p: Pace)
    requires Inv(s) && Punctual(s, p) && Timely(s, e, p)
    ensures Punctual(Step(s, e), p)
  {
    match e {
      case AddInLoop(id) =>
        if id in s.queued && id in s.items && (s.pc.Idle? || s.pc.Running?) { AddIsPunctual(s, id, p); }
      case ResetNext => if s.pc.Resetting? && |s.active| > 0 && s.active[0].id in s.items { ResetIsPunctual(s, p); }
      case Tick(_) =>
      case Create(_, _, _) =>
      case EndRuns =>
      case _ => OtherStepsArePunctual(s, e, p);
    }
  }

  lemma {:induction false} RunIsPunctual(es: seq<Event>, n: nat, p: Pace)
    requires n <= |es| && TimelyTo(es, n, p)
    ensures Punctual(RunTo(es, n), p)
  {
    if n > 0 {
      RunIsPunctual(es, n - 1, p);
      RunKeepsInv(es, n - 1);
      StepIsPunctual(RunTo(es, n - 1), es[n - 1], p);
      RunNextStep(es, n - 1);
    }
  }

  /** In every run within the bounds, every callback starts at most `late + 100 + queueing + 2 * pass` after the
      expiration that its timer was collected with. */
  lemma CallbacksStartInTime(es: seq<Event>, p: Pace, i: nat)
    requires TimelyTo(es, |es|, p) && i < |Run(es).log|
    ensures var r := Run(es).log[i]; r.due <= r.at <= r.due + p.late + MIN_DIFF + p.queueing + 2 * p.pass
  {
    RunIsPunctual(es, |es|, p);
    NoTimerRunsEarly(es, i);
    assert Run(es).log[i] in Run(es).log;
  }

  // ---------------------------------------------------------------- how late a repeat is

  /** When the timer last ran, if it has. */
  function LastRun(log: seq<Ran>, id: TimerId): Option<Time> {
    if |log| == 0 then None
    else if log[|log| - 1].id == id then Some(log[|log| - 1].at)
    else LastRun(log[..|log| - 1], id)
  }

  lemma LastRunSnoc(log: seq<Ran>, r: Ran, id: TimerId)
    ensures LastRun(log + [r], id) == if r.id == id then Some(r.at) else LastRun(log, id)
  {
    assert (log + [r])[..|log|] == log;
  }

  lemma {:induction false} LastRunIs(log: seq<Ran>, i: nat)
    requires i < |log| && forall k | i < k < |log| :: log[k].id != log[i].id
    ensures LastRun(log, log[i].id) == Some(log[i].at)
    decreases |log|
  {
    if i < |log| - 1 {
      LastRunIs(log[..|log| - 1], i);
    }
  }

  lemma {:induction false} NeverRan(log: seq<Ran>, id: TimerId)
    requires !HasRun(log, id)
    ensures LastRun(log, id) == None
    decreases |log|
  {
    if |log| > 0 {
      var earlier := log[..|log| - 1];
      assert log[|log| - 1].id != id;
      forall i | 0 <= i < |earlier|
        ensures earlier[i].id != id
      {
        assert log[i].id != id;
      }
      NeverRan(earlier, id);
    }
  }

  /** If the timer has run, `t` is at most its gap and `slack` after that. */
  ghost predicate Near(s: Queue, id: TimerId, t: Time, slack: nat) {
    var last := LastRun(s.log, id);
    last.Some? ==> id in s.items && t <= last.value + s.items[id].Gap() + slack
  }

  /** It was put back in this pass, in which it also ran. */
  ghost predicate JustPutBack(s: Queue, id: TimerId, t: Time) {
    && s.pc.Resetting? && RanInPass(s, id)
    && id in s.items && t <= s.now + s.items[id].Gap()
  }

  ghost predicate RanInPass(s: Queue, id: TimerId) {
    LastRun(s.log, id).Some? && s.passStart <= LastRun(s.log, id).value
  }

  /** Every entry that has yet to run is near the last run of its timer. */
  ghost predicate ComingNear(s: Queue, p: Pace) {
    && (forall e | e in s.timers :: Near(s, e.id, e.time, p.pass) || JustPutBack(s, e.id, e.time))
    && (forall i | 0 <= i < |s.active| && s.pc.Running? && s.pc.done <= i ::
          Near(s, s.active[i].id, s.active[i].time, p.pass))
    && (forall i | 0 <= i < |s.active| && s.pc.Running? && i < s.pc.done :: RanInPass(s, s.active[i].id))
    && (s.pc.Resetting? ==> forall e | e in s.active :: RanInPass(s, e.id))
  }

  /** So was every entry that has run. */
  ghost predicate LogNear(s: Queue, p: Pace) {
    forall j | 0 <= j < |s.log| :: NearAt(s.items, s.log[..j], s.log[j], p)
  }

  ghost predicate NearAt(items: map<TimerId, Item>, before: seq<Ran>, r: Ran, p: Pace) {
    var last := LastRun(before, r.id);
    last.Some? && r.id in items ==> r.due <= last.value + items[r.id].Gap() + p.pass
  }

  ghost predicate Rhythmic(s: Queue, p: Pace) {
    ComingNear(s, p) && LogNear(s, p)
  }

  /** A repeating timer is put back at exactly the reading of the clock plus the whole seconds of its interval. */
  lemma PutBackExactly(es: seq<Event>)
    requires Run(es).pc.Resetting? && |Run(es).active| > 0
    ensures var s, s', id := Run(es), Step(Run(es), ResetNext), Run(es).active[0].id;
            && id in s.items && id in s'.items && s'.active == s.active[1..]
            && (s.items[id].Repeats() ==>
                  && InSet(s', id) && s'.items[id].expiration == s.now + s.items[id].Gap()
                  && s'.items[id].interval == s.items[id].interval && s'.deleted == s.deleted
                  && (forall e :: e in s'.timers <==> e in s.timers || e == Entry(s.now + s.items[id].Gap(), id)))
            && (!s.items[id].Repeats() ==> s'.deleted == s.deleted + {id} && s'.timers == s.timers)
  {
    RunKeepsInv(es, |es|);
    var s := Run(es);
    assert s.active[0] in s.active;
    PlacedHas(s.timers, Entry(s.now + s.items[s.active[0].id].Gap(), s.active[0].id));
  }

  lemma AddIsRhythmic(s: Queue, id: TimerId, p: Pace)
    requires Inv(s) && Rhythmic(s, p) && id in s.queued && id in s.items && (s.pc.Idle? || s.pc.Running?)
    ensures Rhythmic(AddStep(s, id), p)
  {
    PlacedHas(s.timers, Entry(s.items[id].expiration, id));
    NeverRan(s.log, id);
  }

  lemma CollectIsRhythmic(s: Queue, p: Pace)
    requires Inv(s) && Rhythmic(s, p) && s.pc.Reading?
    ensures Rhythmic(CollectStep(s), p)
  {
    SplitSorted(s.timers, DueCount(s.timers, s.now));
    assert forall e | e in CollectStep(s).active :: e in s.timers;
  }

  /** The entries of a batch are of different timers, and none of them is in the set. */
  lemma BatchIsDistinct(s: Queue)
    requires Inv(s)
    ensures forall i, j | 0 <= i < j < |s.active| :: s.active[i].id != s.active[j].id
    ensures forall i, e | 0 <= i < |s.active| && e in s.timers :: e.id != s.active[i].id
  {
    forall i, j | 0 <= i < j < |s.active|
      ensures s.active[i].id != s.active[j].id
    {
      assert s.active[i] in s.active && s.active[j] in s.active && Less(s.active[i], s.active[j]);
    }
    forall i, e | 0 <= i < |s.active| && e in s.timers
      ensures e.id != s.active[i].id
    {
      assert s.active[i] in s.active;
      assert Places(s, e.id) == if e.id in s.items then 1 else 0;
    }
  }

  lemma RunKeepsComingNear(s: Queue, p: Pace)
    requires Inv(s) && ComingNear(s, p) && s.pc.Running? && s.pc.done < |s.active| && s.passStart <= s.now
    ensures ComingNear(Step(s, RunNext), p)
  {
    hide LastRun, Inv;
    var e, s' := s.active[s.pc.done], Step(s, RunNext);
    var r := Ran(e.id, e.time, s.now);
    BatchIsDistinct(s);
    forall x | x in s'.timers
      ensures Near(s', x.id, x.time, p.pass)
    {
      LastRunSnoc(s.log, r, x.id);
    }
    forall i | 0 <= i < |s'.active|
      ensures if s'.pc.done <= i then Near(s', s'.active[i].id, s'.active[i].time, p.pass)
              else RanInPass(s', s'.active[i].id)
    {
      LastRunSnoc(s.log, r, s'.active[i].id);
    }
  }

  lemma RunIsRhythmic(s: Queue, p: Pace)
    requires Inv(s) && Punctual(s, p) && Rhythmic(s, p) && s.pc.Running? && s.pc.done < |s.active|
    ensures Rhythmic(Step(s, RunNext), p)
  {
    hide LastRun, Inv;
    RunKeepsComingNear(s, p);
    RunKeepsLogNear(s, p);
  }

  lemma RunKeepsLogNear(s: Queue, p: Pace)
    requires Rhythmic(s, p) && s.pc.Running? && s.pc.done < |s.active|
    ensures LogNear(Step(s, RunNext), p)
  {
    hide LastRun;
    var s', n := Step(s, RunNext), |s.log|;
    assert Near(s, s.active[s.pc.done].id, s.active[s.pc.done].time, p.pass);
    forall j | 0 <= j < |s'.log|
      ensures NearAt(s'.items, s'.log[..j], s'.log[j], p)
    {
      assert s'.log[..j] == s.log[..j];
      if j < n {
        assert NearAt(s.items, s.log[..j], s.log[j], p);
      } else {
        assert s.log[..n] == s.log;
      }
    }
  }

  lemma ResetKeepsComingNear(s: Queue, p: Pace)
    requires Inv(s) && ComingNear(s, p) && s.pc.Resetting? && |s.active| > 0 && s.active[0].id in s.items
    ensures ComingNear(ResetStep(s), p)
  {
    hide LastRun, Inv;
    var e, s' := s.active[0], ResetStep(s);
    var e' := Entry(AddTime(s.now, s.items[e.id].interval), e.id);
    assert e in s.active;
    assert forall x | x in s'.active :: x in s.active;
    PlacedHas(s.timers, e');
    forall x | x in s'.timers
      ensures Near(s', x.id, x.time, p.pass) || JustPutBack(s', x.id, x.time)
    {
      if x in s.timers {
        assert Near(s, x.id, x.time, p.pass) || JustPutBack(s, x.id, x.time);
      } else {
        assert x == e' && RanInPass(s, e.id);
      }
    }
  }

  lemma ResetKeepsLogNear(s: Queue, p: Pace)
    requires LogNear(s, p) && s.pc.Resetting? && |s.active| > 0 && s.active[0].id in s.items
    ensures LogNear(ResetStep(s), p)
  {
    hide LastRun;
    var s' := ResetStep(s);
    forall j | 0 <= j < |s'.log|
      ensures NearAt(s'.items, s'.log[..j], s'.log[j], p)
    {
      assert NearAt(s.items, s.log[..j], s.log[j], p);
    }
  }

  lemma ResetIsRhythmic(s: Queue, p: Pace)
    requires Inv(s) && Rhythmic(s, p) && s.pc.Resetting? && |s.active| > 0 && s.active[0].id in s.items
    ensures Rhythmic(ResetStep(s), p)
  {
    hide ComingNear, LogNear;
    ResetKeepsComingNear(s, p);
    ResetKeepsLogNear(s, p);
  }

  lemma EndIsRhythmic(s: Queue, p: Pace)
    requires Inv(s) && Rhythmic(s, p) && s.pc.Resetting? && |s.active| == 0 && Timely(s, EndResets, p)
    ensures Rhythmic(Step(s, EndResets), p)
  {
  }

  lemma StepIsRhythmic(s: Queue, e: Event, p: Pace)
    requires Inv(s) && Punctual(s, p) && Rhythmic(s, p) && Timely(s, e, p)
    ensures Rhythmic(Step(s, e), p)
  {
    match e {
      case AddInLoop(id) =>
        if id in s.queued && id in s.items && (s.pc.Idle? || s.pc.Running?) { AddIsRhythmic(s, id, p); }
      case Collect => if s.pc.Reading? { CollectIsRhythmic(s, p); }
      case RunNext => if s.pc.Running? && s.pc.done < |s.active| { RunIsRhythmic(s, p); }
      case ResetNext => if s.pc.Resetting? && |s.active| > 0 && s.active[0].id in s.items { ResetIsRhythmic(s, p); }
      case EndResets => if s.pc.Resetting? && |s.active| == 0 { EndIsRhythmic(s, p); }
      case _ => OthersAreRhythmic(s, e, p);
    }
  }

  lemma OthersAreRhythmic(s: Queue, e: Event, p: Pace)
    requires Inv(s) && Rhythmic(s, p) && (e.Tick? || e.Create? || e.ReadFd? || e.EndRuns?)
    ensures Rhythmic(Step(s, e), p)
  {
  }

  lemma {:induction false} RunIsRhythmicTo(es: seq<Event>, n: nat, p: Pace)
    requires n <= |es| && TimelyTo(es, n, p)
    ensures Rhythmic(RunTo(es, n), p)
  {
    hide Rhythmic, Inv, Punctual, Timely, Step;
    if n > 0 {
      RunIsRhythmicTo(es, n - 1, p);
      RunKeepsInv(es, n - 1);
      RunIsPunctual(es, n - 1, p);
      StepIsRhythmic(RunTo(es, n - 1), es[n - 1], p);
    } else {
      NothingIsRhythmic(p);
    }
  }

  lemma NothingIsRhythmic(p: Pace)
    ensures Rhythmic(INITIAL, p)
  {
  }

  /** In every run within the bounds, two successive runs of a timer follow its interval from both sides: the
      later one is due at least the whole seconds of the interval after the earlier one started and at most that
      and one pass, and so it starts at most `late + 100 + queueing + 3 * pass` after the whole seconds. */
  lemma RepeatsFollowTheInterval(es: seq<Event>, p: Pace, i: nat, j: nat)
    requires TimelyTo(es, |es|, p) && i < j < |Run(es).log| && Run(es).log[i].id == Run(es).log[j].id
    requires forall k | i < k < j :: Run(es).log[k].id != Run(es).log[i].id
    ensures var s, r, r' := Run(es), Run(es).log[i], Run(es).log[j];
            && r.id in s.items
            && r.at + s.items[r.id].Gap() <= r'.due <= r.at + s.items[r.id].Gap() + p.pass
            && r'.at <= r.at + s.items[r.id].Gap() + p.late + MIN_DIFF + p.queueing + 3 * p.pass
  {
    RunsAreSpaced(es, i, j);
    CallbacksStartInTime(es, p, j);
    RunIsRhythmicTo(es, |es|, p);
    LastRunIs(Run(es).log[..j], i);
  }

  /** In every run within the bounds, a timer of the set is never overdue by more than
      `late + 100 + queueing + pass` outside `HandleRead`. */
  lemma WaitingTimerIsNotOverdue(es: seq<Event>, id: TimerId, p: Pace)
    requires TimelyTo(es, |es|, p) && Timely(Run(es), ReadFd, p)
    requires Run(es).pc.Idle? && InSet(Run(es), id)
    ensures var s := Run(es);
            id in s.items && s.now <= s.items[id].expiration + p.late + MIN_DIFF + p.queueing + p.pass
  {
    var s := Run(es);
    assert |s.timers| > 0;
    RunIsPunctual(es, |es|, p);
    RunKeepsInv(es, |es|);
    EarliestIsFirst(s);
  }

  /** A run that inserts a timer long after its expiration: the kernel timer is set again, and the older timer
      waits on although the descriptor is never left readable. */
  function LateInsertion(wait: nat): seq<Event> {
    [Create(0, 10, 0.0), AddInLoop(0), Tick(wait), Create(1, 5, 0.0), AddInLoop(1)]
  }

  /** So no bound holds without one on the insertions: with `pass` and `late` zero a timer can be overdue by any
      amount. */
  lemma LateInsertionsDelay(overdue: nat)
    ensures var s := Run(LateInsertion(overdue + 10));
            && s.pc.Idle? && InSet(s, 0) && 0 in s.items && s.now == s.items[0].expiration + overdue
            && TimelyTo(LateInsertion(overdue + 10), 5, Pace(overdue + 5, 0, 0))
            && Timely(s, ReadFd, Pace(overdue + 5, 0, 0))
  {
    var es, p := LateInsertion(overdue + 10), Pace(overdue + 5, 0, 0);
    var first := Entry(10, 0);
    var s2 := Queue(0, map[0 := Item(10, 0.0)], {}, {}, [first], [], Idle, 0, Some(Arm(0, 100)), []);
    FirstInsertion(es);
    assert RunTo(es, 2) == s2;
    var now := overdue + 10;
    assert RunTo(es, 3) == s2.(now := now);
    var s4 := s2.(now := now, items := s2.items[1 := Item(5, 0.0)], queued := {1});
    assert RunTo(es, 4) == s4;
    SecondInsertion(s4);
    assert RunTo(es, 5) == AddStep(s4, 1);
    TimelyInsertions(es, p, s4);
  }

  lemma FirstInsertion(es: seq<Event>)
    requires |es| >= 2 && es[0] == Create(0, 10, 0.0) && es[1] == AddInLoop(0)
    ensures RunTo(es, 2)
            == Queue(0, map[0 := Item(10, 0.0)], {}, {}, [Entry(10, 0)], [], Idle, 0, Some(Arm(0, 100)), [])
  {
    assert RunTo(es, 1) == INITIAL.(items := map[0 := Item(10, 0.0)], queued := {0});
    assert Placed([], Entry(10, 0)) == [Entry(10, 0)];
  }

  lemma SecondInsertion(s: Queue)
    requires 1 in s.items && s.items[1] == Item(5, 0.0) && s.timers == [Entry(10, 0)]
    requires 0 in s.items && s.items[0] == Item(10, 0.0)
    ensures AddStep(s, 1).timers == [Entry(5, 1), Entry(10, 0)] && InSet(AddStep(s, 1), 0)
  {
    var t := [Entry(5, 1), Entry(10, 0)];
    assert AddStep(s, 1).timers == t && t[1] == Entry(10, 0);
  }

  lemma TimelyInsertions(es: seq<Event>, p: Pace, s: Queue)
    requires |es| == 5 && es[1] == AddInLoop(0) && es[2].Tick? && es[3].Create? && es[4] == AddInLoop(1)
    requires RunTo(es, 4) == s && 1 in s.items && s.now <= s.items[1].expiration + p.queueing
    requires es[0] == Create(0, 10, 0.0)
    ensures TimelyTo(es, 5, p)
  {
    assert RunTo(es, 1) == INITIAL.(items := map[0 := Item(10, 0.0)], queued := {0});
    assert TimelyTo(es, 0, p);
    assert TimelyTo(es, 1, p);
    assert TimelyTo(es, 2, p);
    assert TimelyTo(es, 3, p);
    assert TimelyTo(es, 4, p);
  }
}
