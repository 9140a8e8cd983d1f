/** The life of connections over every run of the main loop and an IO loop.

    Net/TcpServer.cc, Net/TcpConnection.cc, Net/Channel.cc: the main loop owns the connection map, the IO
    loop owns the channels; they talk through their FIFO task queues (LoopQueue.dfy). A `shared_ptr` is held
    by the map, by a queued `removeConnectionInLoop` and by a queued `connectEstablished` or
    `connectDestoryed`, but not by a queued `shutdownInloop`, which is bound to the bare pointer. */
module Lifecycle {
  import opened Options
  import opened OutputStream
  import opened Poller

  type ConnId = nat

  /** The two fields of a connection that its life depends on. */
  datatype Link = Link(state: State, index: Index)

  function EstablishLink(l: Link): Link {
    Link(Connected, Added)
  }

  /** `handleClose`: disabling a channel that is not added puts it back, with an empty interest. */
  function CloseLink(l: Link): Link {
    Link(Disconnected, if l.index == Added then Deleted else Added)
  }

  /** `connectDestoryed`. */
  function DestroyLink(l: Link): Link {
    Link(if l.state == Connected then Disconnected else l.state, New)
  }

  datatype Stage = Queued | Live | Closing | Erased | Gone

  datatype Conn = Conn(link: Link, inMap: bool, stage: Stage, established: nat, closed: nat, destroyed: nat)

  datatype Task = CallEstablished(conn: ConnId) | CallDestroyed(conn: ConnId) | CallShutdown(conn: ConnId)

  /** Where the IO loop stands; `active` are the ready connections not dispatched yet. */
  datatype Phase = Waiting | Events(active: seq<ConnId>) | Tasks

  /** `removals` is the main loop's queue; `tasks` is the IO loop's, of which the first `batch` were swapped
      out already. `shutting` is the connection whose state the main thread has just set in `shutdown`
      without having queued the shutdown yet. */
  datatype World = World(
    conns: map<ConnId, Conn>, nextId: ConnId, removals: seq<ConnId>, shutting: Option<ConnId>,
    phase: Phase, tasks: seq<Task>, batch: nat)

  const INITIAL := World(map[], 1, [], None, Waiting, [], 0)

  // ---------------------------------------------------------------- dispatch

  /** How often `handleEvent` reaches `handleClose` when the read returns `n`. */
  function Closes(revents: Poller.Events, n: int): nat {
    (if HungUp(revents) then 1 else 0) + (if Readable(revents) && n == 0 then 1 else 0)
  }

  /** The three conditions of `handleEvent` that lead to the close, the read and the write handler. */
  predicate HungUp(revents: Poller.Events) {
    revents & EPOLLHUP != 0 && revents & EPOLLIN == 0
  }

  predicate Readable(revents: Poller.Events) {
    revents & (EPOLLIN | EPOLLPRI) != 0
  }

  predicate HasRoom(revents: Poller.Events) {
    revents & EPOLLOUT != 0
  }

  /** Enabling reading registers exactly the bits on which the read handler runs, and disabling it takes exactly
      these away; the write handler is not affected. */
  lemma ReadHandlerMatchesInterest(revents: Poller.Events, interest: Poller.Events, fd: Poller.Fd)
    ensures Readable(revents) <==> revents & Interest(K_NONE_EVENT, Op.EnableReading(fd)) != 0
    ensures Readable(revents & Interest(interest, Op.EnableReading(fd))) <==> Readable(revents)
    ensures !Readable(revents & Interest(interest, Op.DisableReading(fd)))
    ensures HasRoom(revents & Interest(interest, Op.DisableReading(fd))) <==> HasRoom(revents & interest)
  {
  }

  /** Likewise for writing. */
  lemma WriteHandlerMatchesInterest(revents: Poller.Events, interest: Poller.Events, fd: Poller.Fd)
    ensures HasRoom(revents) <==> revents & Interest(K_NONE_EVENT, Op.EnableWriting(fd)) != 0
    ensures HasRoom(revents & Interest(interest, Op.EnableWriting(fd))) <==> HasRoom(revents)
    ensures !HasRoom(revents & Interest(interest, Op.DisableWriting(fd)))
    ensures Readable(revents & Interest(interest, Op.DisableWriting(fd))) <==> Readable(revents & interest)
  {
  }

  /** A hang-up with urgent data but without input. */
  predicate HangUpWithUrgent(revents: Poller.Events) {
    revents & EPOLLHUP != 0 && revents & EPOLLPRI != 0 && revents & EPOLLIN == 0
  }

  /** One dispatch closes at most once exactly for the event sets without that combination. */
  lemma ClosesAtMostOnceExactly(revents: Poller.Events)
    ensures (forall n :: Closes(revents, n) <= 1) <==> !HangUpWithUrgent(revents)
  {
    assert revents & (EPOLLIN | EPOLLPRI) != 0 <==> revents & EPOLLIN != 0 || revents & EPOLLPRI != 0;
    if HangUpWithUrgent(revents) {
      assert Closes(revents, 0) == 2;
    }
  }

  // ---------------------------------------------------------------- steps

  datatype Event =
    | NewConnection | RunRemoval
    | BeginShutdown(conn: ConnId) | PushShutdown
    | Poll(ready: seq<ConnId>) | HandleEvent(revents: Poller.Events, read: int, shuts: bool)
    | SwapTasks | RunTask | EndTasks

  /** `newConnection`: the map entry, and the first task of the connection. */
  function NewStep(w: World): World {
    w.(conns := w.conns[w.nextId := Conn(Link(Connecting, New), true, Queued, 0, 0, 0)],
       nextId := w.nextId + 1, tasks := w.tasks + [CallEstablished(w.nextId)])
  }

  /** `handleClose` with its close callback, `removeConnection`. */
  function CloseStep(w: World, c: ConnId): World
    requires c in w.conns
  {
    var k := w.conns[c];
    w.(conns := w.conns[c := k.(link := CloseLink(k.link), stage := Closing, closed := k.closed + 1)],
       removals := w.removals + [c])
  }

  /** `removeConnectionInLoop`, for the oldest queued connection. */
  function RemoveStep(w: World): World
    requires w.removals != [] && w.removals[0] in w.conns
  {
    var c := w.removals[0];
    w.(conns := w.conns[c := w.conns[c].(inMap := false, stage := Erased)],
       removals := w.removals[1..], tasks := w.tasks + [CallDestroyed(c)])
  }

  /** The state check and assignment of `shutdown`. */
  function MarkShutdown(k: Conn): Conn {
    k.(link := k.link.(state := ShutdownState(k.link.state)))
  }

  function RunOne(w: World, t: Task): World
    requires t.conn in w.conns
  {
    var k := w.conns[t.conn];
    var k' := match t
      case CallEstablished(_) => k.(link := EstablishLink(k.link), stage := Live, established := k.established + 1)
      case CallDestroyed(_) => k.(link := DestroyLink(k.link), stage := Gone, destroyed := k.destroyed + 1)
      case CallShutdown(_) => k;
    w.(conns := w.conns[t.conn := k'])
  }

  /** `handleEvent` of connection `c`; without a close, the message callback may shut the connection down. */
  function Dispatch(w: World, c: ConnId, closes: nat, shuts: bool): World
    requires c in w.conns
  {
    if closes == 0 then
      if shuts then w.(conns := w.conns[c := MarkShutdown(w.conns[c])]) else w
    else if closes == 1 then CloseStep(w, c)
    else CloseStep(CloseStep(w, c), c)
  }

  ghost predicate Registered(w: World, c: ConnId) {
    c in w.conns && w.conns[c].link.index == Added
  }

  predicate Owned(w: World, c: ConnId) {
    && c in w.conns
    && (w.conns[c].inMap || c in w.removals || CallEstablished(c) in w.tasks || CallDestroyed(c) in w.tasks)
  }

  /** What `epoll_wait` may report: distinct registered connections. */
  ghost predicate Reportable(w: World, ready: seq<ConnId>) {
    && (forall i | 0 <= i < |ready| :: Registered(w, ready[i]))
    && (forall i, j | 0 <= i < j < |ready| :: ready[i] != ready[j])
  }

  /** Any event at any time; one that the acting thread's position does not allow changes nothing. */
  ghost function Step(w: World, e: Event): World {
    match e
    case NewConnection => if w.shutting.Some? then w else NewStep(w)
    case RunRemoval =>
      if w.shutting.Some? || w.removals == [] || w.removals[0] !in w.conns then w else RemoveStep(w)
    case BeginShutdown(c) =>
      if w.shutting.Some? || !Owned(w, c) || w.conns[c].link.state != Connected then w
      else w.(conns := w.conns[c := MarkShutdown(w.conns[c])], shutting := Some(c))
    case PushShutdown =>
      if w.shutting.None? then w
      else w.(tasks := w.tasks + [CallShutdown(w.shutting.value)], shutting := None)
    case Poll(ready) => if w.phase != Waiting || !Reportable(w, ready) then w else w.(phase := Events(ready))
    case HandleEvent(revents, read, shuts) =>
      if !w.phase.Events? || w.phase.active == [] || w.phase.active[0] !in w.conns then w
      else Dispatch(w.(phase := Events(w.phase.active[1..])), w.phase.active[0], Closes(revents, read), shuts)
    case SwapTasks =>
      if !w.phase.Events? || w.phase.active != [] then w else w.(phase := Tasks, batch := |w.tasks|)
    case RunTask =>
      if w.phase != Tasks || w.batch == 0 || w.tasks == [] || w.tasks[0].conn !in w.conns then w
      else RunOne(w.(tasks := w.tasks[1..], batch := w.batch - 1), w.tasks[0])
    case EndTasks => if w.phase != Tasks || w.batch > 0 then w else w.(phase := Waiting)
  }

  ghost function RunTo(es: seq<Event>, n: nat): World
    requires n <= |es|
  {
    if n == 0 then INITIAL else Step(RunTo(es, n - 1), es[n - 1])
  }

  ghost function Run(es: seq<Event>): World {
    RunTo(es, |es|)
  }

  /** A dispatch that closes at most once. By `ClosesAtMostOnceExactly` every dispatch does, whatever its
      read returns, unless a hang-up comes with urgent data and without input. */
  predicate Ordinary(e: Event) {
    e.HandleEvent? ==> Closes(e.revents, e.read) <= 1
  }

  // ---------------------------------------------------------------- the invariant

  /** What each stage says about the connection itself. */
  ghost predicate StageFits(k: Conn) {
    match k.stage
    case Queued => k == Conn(Link(Connecting, New), true, Queued, 0, 0, 0)
    case Live => k == Conn(Link(k.link.state, Added), true, Live, 1, 0, 0)
                 && (k.link.state == Connected || k.link.state == Disconnecting)
    case Closing => k == Conn(Link(Disconnected, Deleted), true, Closing, 1, 1, 0)
    case Erased => k == Conn(Link(Disconnected, Deleted), false, Erased, 1, 1, 0)
    case Gone => k == Conn(Link(Disconnected, New), false, Gone, 1, 1, 1)
  }

  ghost predicate Fits(w: World) {
    forall c | c in w.conns :: c < w.nextId && StageFits(w.conns[c])
  }

  ghost predicate InStage(w: World, c: ConnId, stage: Stage) {
    c in w.conns && w.conns[c].stage == stage
  }

  /** Queued removals are exactly the closing connections, once each. */
  ghost predicate RemovalsFit(w: World) {
    && (forall i, j | 0 <= i < j < |w.removals| :: w.removals[i] != w.removals[j])
    && (forall c :: c in w.removals <==> InStage(w, c, Closing))
  }

  /** No establishment or destruction is queued twice, and bare-pointer tasks wait in front of the
      destruction of their connection. */
  ghost predicate Orderly(ts: seq<Task>) {
    && (forall i, j | 0 <= i < j < |ts| && ts[i] == ts[j] :: ts[i].CallShutdown?)
    && (forall i, j | 0 <= i < j < |ts| && ts[i].CallDestroyed? :: ts[j] != CallShutdown(ts[i].conn))
  }

  lemma OrderlySnoc(ts: seq<Task>, t: Task)
    requires Orderly(ts)
    requires t.CallShutdown? || t !in ts
    requires t.CallShutdown? ==> CallDestroyed(t.conn) !in ts
    ensures Orderly(ts + [t])
    ensures forall u :: u in ts + [t] <==> u in ts || u == t
  {
  }

  lemma OrderlyTail(ts: seq<Task>)
    requires Orderly(ts) && ts != []
    ensures Orderly(ts[1..])
    ensures forall u :: u in ts <==> u in ts[1..] || u == ts[0]
    ensures ts[0].CallShutdown? || ts[0] !in ts[1..]
    ensures ts[0].CallDestroyed? ==> CallShutdown(ts[0].conn) !in ts[1..]
  {
  }

  /** Queued establishments and destructions are exactly those of the queued and erased connections. */
  ghost predicate TasksFit(w: World) {
    && w.batch <= |w.tasks| && Orderly(w.tasks)
    && (forall c :: CallEstablished(c) in w.tasks <==> InStage(w, c, Queued))
    && (forall c :: CallDestroyed(c) in w.tasks <==> InStage(w, c, Erased))
    && (forall c | CallShutdown(c) in w.tasks :: InStage(w, c, Live) || InStage(w, c, Closing) || InStage(w, c, Erased))
  }

  ghost predicate ThreadsFit(w: World) {
    && (w.shutting.Some? ==> InStage(w, w.shutting.value, Live) || InStage(w, w.shutting.value, Closing))
    && (w.phase.Events? ==>
          && (forall i | 0 <= i < |w.phase.active| :: InStage(w, w.phase.active[i], Live))
          && (forall i, j | 0 <= i < j < |w.phase.active| :: w.phase.active[i] != w.phase.active[j]))
  }

  ghost predicate Inv(w: World) {
    Fits(w) && RemovalsFit(w) && TasksFit(w) && ThreadsFit(w)
  }

  lemma NewKeepsInv(w: World)
    requires Inv(w)
    ensures Inv(NewStep(w))
  {
    OrderlySnoc(w.tasks, CallEstablished(w.nextId));
  }

  lemma CloseKeepsInv(w: World, c: ConnId)
    requires Inv(w) && InStage(w, c, Live)
    requires w.phase.Events? ==> c !in w.phase.active
    ensures Inv(CloseStep(w, c))
  {
    assert c !in w.removals;
    assert forall d :: d in w.removals + [c] <==> d in w.removals || d == c;
  }

  lemma RemoveKeepsTasks(w: World)
    requires TasksFit(w) && w.removals != [] && InStage(w, w.removals[0], Closing)
    ensures TasksFit(RemoveStep(w))
  {
  }

  lemma RemoveKeepsInv(w: World)
    requires Inv(w) && w.shutting.None? && w.removals != []
    ensures w.removals[0] in w.conns && Inv(RemoveStep(w))
  {
    var c := w.removals[0];
    assert c in w.removals;
    var w' := RemoveStep(w);
    assert w.removals == [c] + w'.removals;
    assert forall d :: d in w'.removals <==> d in w.removals && d != c;
    RemoveKeepsTasks(w);
  }

  lemma RunTaskKeepsTasks(w: World)
    requires TasksFit(w) && w.phase == Tasks && w.batch > 0 && w.tasks != [] && w.tasks[0].conn in w.conns
    ensures TasksFit(Step(w, RunTask))
  {
    OrderlyTail(w.tasks);
    var t, w' := w.tasks[0], Step(w, RunTask);
    assert w'.tasks == w.tasks[1..] && w'.conns.Keys == w.conns.Keys;
    forall c | CallShutdown(c) in w'.tasks
      ensures InStage(w', c, Live) || InStage(w', c, Closing) || InStage(w', c, Erased)
    {
      assert CallShutdown(c) in w.tasks;
      assert t == CallEstablished(c) ==> InStage(w, c, Queued);
    }
  }

  lemma RunTaskKeepsInv(w: World)
    requires Inv(w) && w.phase == Tasks && w.batch > 0
    ensures w.tasks != [] && w.tasks[0].conn in w.conns && Inv(Step(w, RunTask))
  {
    assert w.tasks[0] in w.tasks;
    RunTaskKeepsTasks(w);
  }

  lemma PushKeepsInv(w: World)
    requires Inv(w)
    ensures Inv(Step(w, PushShutdown))
  {
  }

  lemma BeginShutdownKeepsInv(w: World, c: ConnId)
    requires Inv(w)
    ensures Inv(Step(w, Event.BeginShutdown(c)))
  {
  }

  lemma PollKeepsInv(w: World, ready: seq<ConnId>)
    requires Inv(w)
    ensures Inv(Step(w, Poll(ready)))
  {
  }

  lemma DispatchKeepsInv(w: World, c: ConnId, closes: nat, shuts: bool)
    requires Inv(w) && InStage(w, c, Live) && closes <= 1
    requires w.phase.Events? ==> c !in w.phase.active
    ensures Inv(Dispatch(w, c, closes, shuts))
  {
    if closes == 1 {
      CloseKeepsInv(w, c);
    }
  }

  lemma HandleKeepsInv(w: World, revents: Poller.Events, read: int, shuts: bool)
    requires Inv(w) && Closes(revents, read) <= 1
    ensures Inv(Step(w, HandleEvent(revents, read, shuts)))
  {
    if w.phase.Events? && w.phase.active != [] {
      var c := w.phase.active[0];
      var w' := w.(phase := Events(w.phase.active[1..]));
      assert InStage(w, c, Live) && c !in w'.phase.active;
      assert RemovalsFit(w') && TasksFit(w') && ThreadsFit(w');
      DispatchKeepsInv(w', c, Closes(revents, read), shuts);
    }
  }

  lemma StepKeepsInv(w: World, e: Event)
    requires Inv(w) && Ordinary(e)
    ensures Inv(Step(w, e))
  {
    match e {
      case NewConnection => NewKeepsInv(w);
      case RunRemoval => if w.shutting.None? && w.removals != [] { RemoveKeepsInv(w); }
      case BeginShutdown(c) => BeginShutdownKeepsInv(w, c);
      case PushShutdown => PushKeepsInv(w);
      case Poll(ready) => PollKeepsInv(w, ready);
      case HandleEvent(revents, read, shuts) => HandleKeepsInv(w, revents, read, shuts);
      case RunTask => if w.phase == Tasks && w.batch > 0 { RunTaskKeepsInv(w); }
      case SwapTasks =>
      case EndTasks =>
    }
  }

  lemma {:induction false} RunKeepsInv(es: seq<Event>, n: nat)
    requires n <= |es| && forall e | e in es :: Ordinary(e)
    ensures Inv(RunTo(es, n))
  {
    if n > 0 {
      RunKeepsInv(es, n - 1);
      StepKeepsInv(RunTo(es, n - 1), es[n - 1]);
    }
  }

  ghost predicate OrdinaryRun(es: seq<Event>) {
    forall e | e in es :: Ordinary(e)
  }

  /** The states of all runs whose dispatches close at most once. */
  ghost predicate Reachable(w: World) {
    exists es :: OrdinaryRun(es) && Run(es) == w
  }

  lemma RunToNext(es: seq<Event>, n: nat)
    requires n < |es|
    ensures RunTo(es, n + 1) == Step(RunTo(es, n), es[n])
  {
  }

  lemma {:induction false} RunToPrefix(es: seq<Event>, e: Event, n: nat)
    requires n <= |es|
    ensures RunTo(es + [e], n) == RunTo(es, n)
  {
    if n > 0 {
      RunToPrefix(es, e, n - 1);
      assert (es + [e])[n - 1] == es[n - 1];
      RunToNext(es + [e], n - 1);
      RunToNext(es, n - 1);
    }
  }

  lemma RunSnoc(es: seq<Event>, e: Event)
    ensures Run(es + [e]) == Step(Run(es), e)
  {
    RunToPrefix(es, e, |es|);
    RunToNext(es + [e], |es|);
  }

  lemma ReachableStep(w: World, e: Event)
    requires Reachable(w) && Ordinary(e)
    ensures Reachable(Step(w, e))
  {
    var es :| OrdinaryRun(es) && Run(es) == w;
    RunSnoc(es, e);
    assert forall f | f in es + [e] :: f in es || f == e;
  }

  lemma ReachableInv(w: World)
    requires Reachable(w)
    ensures Inv(w)
  {
    var es :| OrdinaryRun(es) && Run(es) == w;
    RunKeepsInv(es, |es|);
  }

  // ---------------------------------------------------------------- main results

  /** A shutdown by the main thread marks a connected connection at once and no other, and then
      puts its call behind everything queued in the IO loop. */
  lemma ShutdownIsMarkedAndQueued(es: seq<Event>, c: ConnId)
    requires OrdinaryRun(es) && Run(es).shutting.None? && Owned(Run(es), c)
    requires Run(es).conns[c].link.state == Connected
    ensures var w, w' := Run(es), Step(Step(Run(es), Event.BeginShutdown(c)), PushShutdown);
            && w'.tasks == w.tasks + [CallShutdown(c)] && w'.shutting.None?
            && w'.conns.Keys == w.conns.Keys && (forall d | d in w.conns && d != c :: w'.conns[d] == w.conns[d])
            && w'.conns[c] == w.conns[c].(link := Link(Disconnecting, Added)) && w'.conns[c].stage == Live
  {
    RunKeepsInv(es, |es|);
    assert StageFits(Run(es).conns[c]);
  }

  lemma OwnedBeforeGone(w: World, c: ConnId)
    requires Inv(w) && c in w.conns && w.conns[c].stage != Gone
    ensures Owned(w, c)
  {
  }

  /** In every run a connection stays owned while its channel is in the kernel's set, while it is in the
      list being dispatched, and while any task on it waits, those bound to the bare pointer included. */
  lemma OwnedWhileInUse(es: seq<Event>, c: ConnId)
    requires OrdinaryRun(es)
    ensures var w := Run(es);
            && (Registered(w, c) ==> Owned(w, c))
            && (w.phase.Events? && c in w.phase.active ==> Registered(w, c) && Owned(w, c))
            && (forall t | t in w.tasks && t.conn == c :: Owned(w, c))
            && (w.shutting == Some(c) ==> Owned(w, c))
  {
    RunKeepsInv(es, |es|);
    var w := Run(es);
    if c in w.conns {
      assert StageFits(w.conns[c]);
      if w.conns[c].stage != Gone {
        OwnedBeforeGone(w, c);
      }
    }
    forall t | t in w.tasks && t.conn == c
      ensures Owned(w, c)
    {
      var i :| 0 <= i < |w.tasks| && w.tasks[i] == t;
      assert t.CallShutdown? ==> InStage(w, c, Live) || InStage(w, c, Closing) || InStage(w, c, Erased);
      assert t.CallEstablished? ==> InStage(w, c, Queued);
      assert t.CallDestroyed? ==> InStage(w, c, Erased);
    }
  }

  /** When the last owner is gone, the channel is out of the kernel's set and of the poller's table. */
  lemma UnownedIsUnregistered(es: seq<Event>, c: ConnId)
    requires OrdinaryRun(es) && c in Run(es).conns && !Owned(Run(es), c)
    ensures var k := Run(es).conns[c];
            k.link == Link(Disconnected, New) && k.established == 1 && k.closed == 1 && k.destroyed == 1
  {
    RunKeepsInv(es, |es|);
    if Run(es).conns[c].stage != Gone {
      OwnedBeforeGone(Run(es), c);
    }
    assert StageFits(Run(es).conns[c]);
  }

  /** Each callback runs at most once and in order: established, closed, erased from the map, destroyed. A
      closed connection that is not destroyed has its removal or its destruction queued, exactly once. */
  lemma DestroyedOnceAndLast(es: seq<Event>, c: ConnId)
    requires OrdinaryRun(es) && c in Run(es).conns
    ensures var w := Run(es);
            var k := w.conns[c];
            && k.destroyed <= k.closed <= k.established <= 1
            && (k.destroyed == 1 ==> !k.inMap)
            && (!k.inMap ==> k.closed == 1)
            && (k.closed == 1 && k.destroyed == 0 ==> (c in w.removals) != (CallDestroyed(c) in w.tasks))
            && (forall i, j | 0 <= i < j < |w.tasks| && w.tasks[i] == CallDestroyed(c) :: w.tasks[j] != w.tasks[i])
            && (forall i, j | 0 <= i < j < |w.removals| && w.removals[i] == c :: w.removals[j] != c)
  {
    RunKeepsInv(es, |es|);
    var w := Run(es);
    assert StageFits(w.conns[c]);
    assert InStage(w, c, w.conns[c].stage);
  }

  /** `connectDestoryed` runs in the functor phase, after the map erase, on a connection that is already
      disconnected, so it never takes the branch of a connection still up; and nothing bound to the bare
      pointer waits behind it. */
  lemma DestroyFindsItDisconnected(es: seq<Event>)
    requires OrdinaryRun(es)
    requires var w := Run(es); w.phase == Tasks && w.batch > 0 && w.tasks != [] && w.tasks[0].CallDestroyed?
    ensures var w := Run(es);
            var c := w.tasks[0].conn;
            && c in w.conns && w.conns[c].link == Link(Disconnected, Deleted) && !w.conns[c].inMap
            && (forall t | t in w.tasks[1..] :: t.conn != c)
  {
    RunKeepsInv(es, |es|);
    var w := Run(es);
    var c := w.tasks[0].conn;
    OrderlyTail(w.tasks);
    assert InStage(w, c, Erased) && StageFits(w.conns[c]);
    forall t | t in w.tasks[1..]
      ensures t.conn != c
    {
      assert t in w.tasks && (t == CallEstablished(t.conn) || t == CallDestroyed(t.conn) || t == CallShutdown(t.conn));
    }
  }

  /** The events that `epoll_wait` reports in the run are all among `masks`. */
  ghost predicate Over(es: seq<Event>, masks: set<Poller.Events>) {
    forall e | e in es && e.HandleEvent? :: e.revents in masks
  }

  /** In every run whose dispatches report these masks, every connection is closed and destroyed at most
      once. */
  ghost predicate SafeMasks(masks: set<Poller.Events>) {
    forall es: seq<Event>, c | Over(es, masks) && c in Run(es).conns ::
      Run(es).conns[c].closed <= 1 && Run(es).conns[c].destroyed <= 1
  }

  /** For every set of masks, all runs over it close and destroy each connection at most once if and only if
      it holds no hang-up with urgent data but without input. */
  lemma ClosedAndDestroyedOnceExactly(masks: set<Poller.Events>)
    ensures SafeMasks(masks) <==> forall m | m in masks :: !HangUpWithUrgent(m)
  {
    if m :| m in masks && HangUpWithUrgent(m) {
      var es := DoubleClose(m);
      UrgentHangUpDestroysTwice(m);
      assert Over(es, masks) && 1 in Run(es).conns;
    } else {
      forall es: seq<Event>, c | Over(es, masks) && c in Run(es).conns
        ensures Run(es).conns[c].closed <= 1 && Run(es).conns[c].destroyed <= 1
      {
        RunOverSafeMasks(es, masks);
        DestroyedOnceAndLast(es, c);
      }
    }
  }

  lemma RunOverSafeMasks(es: seq<Event>, masks: set<Poller.Events>)
    requires Over(es, masks) && forall m | m in masks :: !HangUpWithUrgent(m)
    ensures OrdinaryRun(es)
  {
    forall e | e in es && e.HandleEvent?
      ensures Closes(e.revents, e.read) <= 1
    {
      ClosesAtMostOnceExactly(e.revents);
    }
  }

  /** A hang-up with urgent data whose read finds the end of the stream closes twice, and the destruction runs
      twice. */
  lemma UrgentHangUpDestroysTwice(m: Poller.Events)
    requires HangUpWithUrgent(m)
    ensures 1 in Run(DoubleClose(m)).conns
    ensures Run(DoubleClose(m)).conns[1].closed == 2 && Run(DoubleClose(m)).conns[1].destroyed == 2
  {
    var es := DoubleClose(m);
    EstablishedConnection(es);
    UrgentConnection(es, m);
    assert es[7..] == [RunRemoval, RunRemoval, SwapTasks, RunTask, RunTask];
    DestroyedTwice(es, CLOSED_TWICE);
  }

  lemma UrgentConnection(es: seq<Event>, m: Poller.Events)
    requires |es| >= 7 && es[5] == Poll([1]) && es[6] == HandleEvent(m, 0, false) && HangUpWithUrgent(m)
    requires RunTo(es, 5) == Only(UP, [], Waiting, [], 0)
    ensures RunTo(es, 7) == Only(CLOSED_TWICE, [1, 1], Events([]), [], 0)
  {
    assert RunTo(es, 6) == RunTo(es, 5).(phase := Events([1]));
    UrgentCloses(m);
  }

  /** An established connection, and one that was closed twice. */
  const UP := Conn(Link(Connected, Added), true, Live, 1, 0, 0)
  const CLOSED_TWICE := Conn(Link(Disconnected, Added), true, Closing, 1, 2, 0)

  /** A world with the one connection `k`. */
  function Only(k: Conn, removals: seq<ConnId>, phase: Phase, tasks: seq<Task>, batch: nat): World {
    World(map[1 := k], 2, removals, None, phase, tasks, batch)
  }

  lemma UrgentCloses(m: Poller.Events)
    requires HangUpWithUrgent(m)
    ensures Step(Only(UP, [], Events([1]), [], 0), HandleEvent(m, 0, false))
            == Only(CLOSED_TWICE, [1, 1], Events([]), [], 0)
  {
    assert m & (EPOLLIN | EPOLLPRI) != 0 <==> m & EPOLLIN != 0 || m & EPOLLPRI != 0;
    assert Closes(m, 0) == 2;
    var w := Only(UP, [], Events([]), [], 0);
    var once := Only(Conn(Link(Disconnected, Deleted), true, Closing, 1, 1, 0), [1], Events([]), [], 0);
    assert CloseStep(w, 1) == once;
    assert CloseStep(once, 1) == Only(CLOSED_TWICE, [1, 1], Events([]), [], 0);
    var ready := Only(UP, [], Events([1]), [], 0);
    assert ready.phase.active[1..] == [] && ready.(phase := Events([])) == w;
  }

  lemma QueuedConnection(es: seq<Event>)
    requires |es| >= 3 && es[0] == NewConnection && es[1] == Poll([]) && es[2] == SwapTasks
    ensures RunTo(es, 3) == Only(Conn(Link(Connecting, New), true, Queued, 0, 0, 0), [], Tasks, [CallEstablished(1)], 1)
  {
    var k := Conn(Link(Connecting, New), true, Queued, 0, 0, 0);
    assert RunTo(es, 1) == Only(k, [], Waiting, [CallEstablished(1)], 0);
    assert RunTo(es, 2) == RunTo(es, 1).(phase := Events([]));
  }

  lemma EstablishedConnection(es: seq<Event>)
    requires |es| >= 5 && es[0] == NewConnection && es[1] == Poll([]) && es[2] == SwapTasks
    requires es[3] == RunTask && es[4] == EndTasks
    ensures RunTo(es, 5) == Only(UP, [], Waiting, [], 0)
  {
    QueuedConnection(es);
    var w := RunTo(es, 3);
    assert RunOne(w.(tasks := [], batch := 0), CallEstablished(1))
           == Only(UP, [], Tasks, [], 0);
    assert RunTo(es, 4) == Only(UP, [], Tasks, [], 0);
  }

  lemma TwoRemovals(k: Conn)
    ensures var w := Only(k, [1, 1], Events([]), [], 0);
            var e := k.(inMap := false, stage := Erased);
            Step(Step(w, RunRemoval), RunRemoval)
            == Only(e, [], Events([]), [CallDestroyed(1), CallDestroyed(1)], 0)
  {
  }

  lemma TwoDestructions(k: Conn)
    ensures var w := Only(k, [], Tasks, [CallDestroyed(1), CallDestroyed(1)], 2);
            var w' := Step(Step(w, RunTask), RunTask);
            1 in w'.conns && w'.conns[1].closed == k.closed && w'.conns[1].destroyed == k.destroyed + 2
  {
  }

  lemma DestroyedTwice(es: seq<Event>, k: Conn)
    requires |es| == 12 && es[7..] == [RunRemoval, RunRemoval, SwapTasks, RunTask, RunTask]
    requires RunTo(es, 7) == Only(k, [1, 1], Events([]), [], 0)
    ensures 1 in RunTo(es, 12).conns
    ensures RunTo(es, 12).conns[1].closed == k.closed && RunTo(es, 12).conns[1].destroyed == k.destroyed + 2
  {
    var rest := es[7..];
    assert es[7] == rest[0] && es[8] == rest[1] && es[9] == rest[2] && es[10] == rest[3] && es[11] == rest[4];
    TwoRemovals(k);
    assert RunTo(es, 9) == Step(RunTo(es, 8), RunRemoval);
    var e := k.(inMap := false, stage := Erased);
    assert RunTo(es, 10) == Only(e, [], Tasks, [CallDestroyed(1), CallDestroyed(1)], 2);
    TwoDestructions(e);
    assert RunTo(es, 12) == Step(RunTo(es, 11), RunTask);
  }

  function DoubleClose(m: Poller.Events): seq<Event> {
    [NewConnection, Poll([]), SwapTasks, RunTask, EndTasks,
     Poll([1]), HandleEvent(m, 0, false), RunRemoval, RunRemoval, SwapTasks, RunTask, RunTask]
  }
}
