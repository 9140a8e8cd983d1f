/** The idle-connection timer of Http/httpServer.cc over every schedule of messages, shutdowns and timer
    dispatches, for one connection and one clock.

    The timer of TimerMachine.dfy never runs its callback early; how late it runs it is a parameter of the
    bound below. */
module IdleReaper {
  import opened Options
  import opened OutputStream
  import TimerMachine

  type Time = TimerMachine.Time

  const K_IDLE_CONNECTION_TIME_OUT: real := 10.0
  const TIME_OUT: int := 10_000_000

  /** When the reaper shut the connection down, and how many messages it had received by then. */
  datatype Reap = Reap(at: Time, heard: nat)

  /** `autoClose` is the server's option; `timestamp` the connection's field; `pending` the expiration of the
      timer bound to the connection; `alive` says whether the weak pointer still locks. `up` and `messages`
      record when the connection came up and when messages came. */
  datatype Client = Client(
    now: Time, autoClose: bool, state: State, alive: bool, created: Time, timestamp: Time, pending: Option<Time>,
    up: Option<Time>, messages: seq<Time>, reaped: Option<Reap>)

  function Initial(autoClose: bool, created: Time): Client {
    Client(created, autoClose, Connecting, true, created, created, None, None, [], None)
  }

  /** `Message(shuts)`: a message whose handling shuts the connection down or does not. `Shutdown` is by
      anybody else, `Fire` the dispatch of the timer. */
  datatype Event = Tick(elapsed: nat) | Up | Message(shuts: bool) | Fire | Shutdown | Close | Destroy

  /** The condition of `HandleIdleConnection`. */
  predicate TimedOut(s: Client) {
    TimerMachine.AddTime(s.timestamp, K_IDLE_CONNECTION_TIME_OUT) < s.now
  }

  function UpStep(s: Client): Client {
    s.(state := Connected, up := Some(s.now),
       pending := if s.autoClose then Some(TimerMachine.AddTime(s.now, K_IDLE_CONNECTION_TIME_OUT)) else s.pending)
  }

  function MessageStep(s: Client, shuts: bool): Client {
    s.(timestamp := if s.autoClose then s.now else s.timestamp, messages := s.messages + [s.now],
       state := if shuts then ShutdownState(s.state) else s.state)
  }

  function FireStep(s: Client): Client {
    if !s.alive then s.(pending := None)
    else if !TimedOut(s) then s.(pending := Some(TimerMachine.AddTime(s.now, K_IDLE_CONNECTION_TIME_OUT)))
    else if s.state != Connected then s.(pending := None)
    else s.(pending := None, state := Disconnecting, reaped := Some(Reap(s.now, |s.messages|)))
  }

  /** Any event at any time; one that cannot happen changes nothing. */
  function Step(s: Client, e: Event): Client {
    match e
    case Tick(elapsed) => s.(now := s.now + elapsed)
    case Up => if s.state != Connecting then s else UpStep(s)
    case Message(shuts) =>
      if s.state != Connected && s.state != Disconnecting then s else MessageStep(s, shuts)
    case Fire => if s.pending.None? || s.now < s.pending.value then s else FireStep(s)
    case Shutdown => s.(state := ShutdownState(s.state))
    case Close => if s.state == Connecting then s else s.(state := Disconnected)
    case Destroy => if s.state != Disconnected then s else s.(alive := false)
  }

  function RunTo(s0: Client, es: seq<Event>, n: nat): Client
    requires n <= |es|
  {
    if n == 0 then s0 else Step(RunTo(s0, es, n - 1), es[n - 1])
  }

  function Run(autoClose: bool, created: Time, es: seq<Event>): Client {
    RunTo(Initial(autoClose, created), es, |es|)
  }

  /** The later of the last message and the coming up. */
  function LastSign(s: Client): Time
    requires s.up.Some?
  {
    if |s.messages| > 0 && s.messages[|s.messages| - 1] > s.up.value then s.messages[|s.messages| - 1] else s.up.value
  }

  ghost predicate TimesFit(s: Client) {
    && s.created <= s.now && s.timestamp <= s.now
    && (s.up.Some? ==> s.created <= s.up.value <= s.now)
    && (s.up.None? <==> s.state == Connecting)
    && (forall i | 0 <= i < |s.messages| :: s.created <= s.messages[i] <= s.now)
    && (s.autoClose ==> s.timestamp == if |s.messages| > 0 then s.messages[|s.messages| - 1] else s.created)
    && (forall i, j | 0 <= i < j < |s.messages| :: s.messages[i] <= s.messages[j])
    && (s.messages != [] ==> s.up.Some?)
  }

  /** While the connection is up, its timer is pending and not far off. */
  ghost predicate PendingFits(s: Client) {
    && (s.alive || s.state == Disconnected)
    && (s.autoClose && s.state == Connected ==>
          s.up.Some? && s.pending.Some? && s.pending.value <= LastSign(s) + 2 * TIME_OUT)
    && (!s.autoClose ==> s.pending.None?)
  }

  /** Before a shutdown by the reaper there was silence. */
  ghost predicate ReapFits(s: Client) {
    s.reaped.Some? ==>
      var r := s.reaped.value;
      && s.autoClose && s.up.Some? && r.heard <= |s.messages| && r.at <= s.now && s.created + TIME_OUT < r.at
      && (forall i | 0 <= i < r.heard :: s.messages[i] + TIME_OUT < r.at)
      && (forall i | r.heard <= i < |s.messages| :: r.at <= s.messages[i])
      && s.state != Connected && s.state != Connecting
  }

  ghost predicate Inv(s: Client) {
    TimesFit(s) && PendingFits(s) && ReapFits(s)
  }

  lemma TenSeconds(t: Time)
    ensures TimerMachine.AddTime(t, K_IDLE_CONNECTION_TIME_OUT) == t + TIME_OUT
  {
  }

  lemma FireKeepsInv(s: Client)
    requires Inv(s) && s.pending.Some? && s.pending.value <= s.now
    ensures Inv(FireStep(s))
  {
    TenSeconds(s.now);
    TenSeconds(s.timestamp);
  }

  lemma StepKeepsInv(s: Client, e: Event)
    requires Inv(s)
    ensures Inv(Step(s, e))
  {
    match e {
      case Up => TenSeconds(s.now);
      case Fire => if s.pending.Some? && s.pending.value <= s.now { FireKeepsInv(s); }
      case _ =>
    }
  }

  lemma {:induction false} RunKeepsInv(s0: Client, es: seq<Event>, n: nat)
    requires n <= |es| && Inv(s0)
    ensures Inv(RunTo(s0, es, n))
    ensures RunTo(s0, es, n).autoClose == s0.autoClose && RunTo(s0, es, n).created == s0.created
  {
    hide Inv;
    if n > 0 {
      RunKeepsInv(s0, es, n - 1);
      StepKeepsInv(RunTo(s0, es, n - 1), es[n - 1]);
    }
  }

  /** The states of all runs with this option and this time of construction. */
  ghost predicate Reachable(s: Client, autoClose: bool, created: Time) {
    exists es :: Run(autoClose, created, es) == s
  }

  lemma {:induction false} RunToPrefix(s0: Client, es: seq<Event>, longer: seq<Event>, n: nat)
    requires n <= |es| <= |longer| && forall i | 0 <= i < n :: es[i] == longer[i]
    ensures RunTo(s0, es, n) == RunTo(s0, longer, n)
  {
    if n > 0 {
      RunToPrefix(s0, es, longer, n - 1);
    }
  }

  lemma RunSnoc(autoClose: bool, created: Time, es: seq<Event>, e: Event)
    ensures Run(autoClose, created, es + [e]) == Step(Run(autoClose, created, es), e)
  {
    RunToPrefix(Initial(autoClose, created), es, es + [e], |es|);
  }

  lemma ReachableStep(s: Client, autoClose: bool, created: Time, e: Event)
    requires Reachable(s, autoClose, created)
    ensures Reachable(Step(s, e), autoClose, created)
  {
    var es :| Run(autoClose, created, es) == s;
    RunSnoc(autoClose, created, es, e);
  }

  // ---------------------------------------------------------------- main results

  /** The reaper shuts a connection down only when the option is on, after it came up, and when every message
      until then was more than ten seconds old. */
  lemma ReapedOnlyWhenSilent(autoClose: bool, created: Time, es: seq<Event>)
    requires Run(autoClose, created, es).reaped.Some?
    ensures var s := Run(autoClose, created, es);
            var r := s.reaped.value;
            && autoClose && s.up.Some? && created + TIME_OUT < r.at && r.heard <= |s.messages|
            && (forall i | 0 <= i < r.heard :: s.messages[i] + TIME_OUT < r.at)
            && (forall i | r.heard <= i < |s.messages| :: r.at <= s.messages[i])
  {
    RunKeepsInv(Initial(autoClose, created), es, |es|);
  }

  /** If a due timer is never overdue by more than `delay`, a connection that is still up has given a sign of
      life in the last twenty seconds plus that delay, whatever the schedule of its messages. */
  lemma SilentConnectionIsReaped(created: Time, es: seq<Event>, delay: nat)
    requires var s := Run(true, created, es);
             s.state == Connected && (s.pending.Some? ==> s.now <= s.pending.value + delay)
    ensures var s := Run(true, created, es);
            s.up.Some? && s.now <= LastSign(s) + 2 * TIME_OUT + delay
  {
    RunKeepsInv(Initial(true, created), es, |es|);
  }

  /** The same with a run of the timers: the pending timer is one of the set, on the same clock, of a loop that
      keeps within the bounds `p`. They make up the delay. */
  lemma TimersReapSilentConnection(created: Time, es: seq<Event>, ts: seq<TimerMachine.Event>,
                                   id: TimerMachine.TimerId, p: TimerMachine.Pace)
    requires Run(true, created, es).state == Connected
    requires TimerMachine.TimelyTo(ts, |ts|, p) && TimerMachine.Timely(TimerMachine.Run(ts), TimerMachine.ReadFd, p)
    requires var s, t := Run(true, created, es), TimerMachine.Run(ts);
             && t.pc.Idle? && t.now == s.now && TimerMachine.InSet(t, id)
             && (s.pending.Some? ==> s.pending.value == t.items[id].expiration)
    ensures var s := Run(true, created, es);
            && s.up.Some?
            && s.now <= LastSign(s) + 2 * TIME_OUT + p.late + TimerMachine.MIN_DIFF + p.queueing + p.pass
  {
    RunKeepsInv(Initial(true, created), es, |es|);
    TimerMachine.WaitingTimerIsNotOverdue(ts, id, p);
  }

  /** No smaller bound holds: the timer that finds exactly ten seconds of silence starts another ten. */
  lemma TheBoundIsReached(delay: nat)
    ensures var s := Run(true, 0, [Up, Tick(10_000_000), Fire, Tick(10_000_000 + delay)]);
            && s.state == Connected && s.pending.Some? && s.now == s.pending.value + delay
            && s.up.Some? && s.now == LastSign(s) + 2 * TIME_OUT + delay
  {
    var es := [Up, Tick(10_000_000), Fire, Tick(10_000_000 + delay)];
    var s0 := Initial(true, 0);
    TenSeconds(0);
    TenSeconds(TIME_OUT);
    assert RunTo(s0, es, 1) == UpStep(s0);
    assert RunTo(s0, es, 2) == UpStep(s0).(now := TIME_OUT);
    assert !TimedOut(RunTo(s0, es, 2));
    assert RunTo(s0, es, 3) == UpStep(s0).(now := TIME_OUT, pending := Some(2 * TIME_OUT));
    assert RunTo(s0, es, 4) == RunTo(s0, es, 3).(now := 2 * TIME_OUT + delay);
  }

  /** A dispatch shuts down exactly a living, connected and timed-out connection, and starts the timer again
      exactly for a living one that is not timed out. */
  lemma FireDecides(autoClose: bool, created: Time, es: seq<Event>)
    requires var s := Run(autoClose, created, es); s.pending.Some? && s.pending.value <= s.now
    ensures var s, s' := Run(autoClose, created, es), Step(Run(autoClose, created, es), Fire);
            && (s'.state != s.state <==> s.state == Connected && s.timestamp + TIME_OUT < s.now)
            && (s'.pending.Some? <==> s.alive && s.now <= s.timestamp + TIME_OUT)
  {
    RunKeepsInv(Initial(autoClose, created), es, |es|);
    TenSeconds(Run(autoClose, created, es).timestamp);
  }
}
