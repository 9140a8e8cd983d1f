/** Net/TcpServer.cc: the connection map of the main loop and the two task queues it talks through.

    A `ConnId` stands for the shared pointer to a connection. `Valid` says that the machine of Lifecycle.dfy
    is in a state that some run reaches, and every method takes one of its steps, so what is proved there
    over every run holds of this object after any calls. What the two loops do elsewhere passes in steps
    that change nothing here. */
module TcpServer {
  import opened Integers
  import opened Options
  import opened Lifecycle
  import Poller
  import LogStream

  const NAME_BUFFER_SIZE := 32

  /** The text that `newConnection` appends to the server's name. */
  function NameSuffix(id: ConnId): string {
    "#" + LogStream.Decimal(id)
  }

  /** Different connections have different names, and the buffer never cuts the number off. */
  lemma NamesAreDistinct(name: string, i: ConnId, j: ConnId)
    requires i <= INT_MAX && j <= INT_MAX
    ensures name + NameSuffix(i) == name + NameSuffix(j) <==> i == j
    ensures |NameSuffix(i)| + 1 <= NAME_BUFFER_SIZE
  {
    LogStream.WideDecimalLength(i);
    if name + NameSuffix(i) == name + NameSuffix(j) {
      assert NameSuffix(i) == (name + NameSuffix(i))[|name|..] == NameSuffix(j);
      assert LogStream.Decimal(i) == NameSuffix(i)[1..] == NameSuffix(j)[1..] == LogStream.Decimal(j);
      LogStream.ValueOfDecimal(i);
      LogStream.ValueOfDecimal(j);
    }
  }

  /** In a reachable world numbers are below the next one, and queued work is on known connections. */
  lemma KnownConnections(w: World)
    requires Reachable(w)
    ensures forall c | c in w.conns :: c < w.nextId
    ensures |w.removals| > 0 ==> w.removals[0] in w.conns
    ensures |w.tasks| > 0 ==> w.tasks[0].conn in w.conns
    ensures w.phase.Events? && |w.phase.active| > 0 ==> w.phase.active[0] in w.conns
  {
    ReachableInv(w);
    if |w.removals| > 0 {
      assert w.removals[0] in w.removals;
    }
    if |w.tasks| > 0 {
      var t := w.tasks[0];
      assert t in w.tasks;
      assert t == CallEstablished(t.conn) || t == CallDestroyed(t.conn) || t == CallShutdown(t.conn);
    }
  }

  class TcpServer {
    const name: string
    var connections: map<string, ConnId>
    var nextConnId: nat
    /** The queued calls of `removeConnectionInLoop`, in the main loop. */
    var removals: seq<ConnId>
    /** The IO loop's queue. */
    var ioTasks: seq<Task>

    ghost var view: World

    function NameOf(c: ConnId): string {
      name + NameSuffix(c)
    }

    /** The map holds exactly the connections that the machine has in it, each under its own name. */
    ghost predicate MapAgrees()
      reads this
    {
      && (forall c | c in view.conns && view.conns[c].inMap :: NameOf(c) in connections && connections[NameOf(c)] == c)
      && (forall n | n in connections ::
            connections[n] in view.conns && view.conns[connections[n]].inMap && n == NameOf(connections[n]))
    }

    ghost predicate Valid()
      reads this
    {
      && Reachable(view) && MapAgrees()
      && nextConnId == view.nextId <= INT_MAX && removals == view.removals && ioTasks == view.tasks
    }

    constructor (name: string)
      ensures Valid() && view == Lifecycle.INITIAL && this.name == name
    {
      this.name, connections, nextConnId, removals, ioTasks := name, map[], 1, [], [];
      view := Lifecycle.INITIAL;
      assert OrdinaryRun([]) && Run([]) == Lifecycle.INITIAL;
    }

    /** `newConnection`: the entry does not replace another connection's. */
    method NewConnection() returns (c: ConnId)
      requires Valid() && nextConnId < INT_MAX && view.shutting.None?
      modifies this
      ensures Valid() && view == Step(old(view), Event.NewConnection) && c == old(nextConnId)
      ensures NameOf(c) !in old(connections) && connections == old(connections)[NameOf(c) := c]
      ensures nextConnId == c + 1 && ioTasks == old(ioTasks) + [CallEstablished(c)] && removals == old(removals)
    {
      hide Reachable;
      KnownConnections(view);
      ReachableStep(view, Event.NewConnection);
      c := nextConnId;
      forall n | n in connections
        ensures n != NameOf(c)
      {
        NamesAreDistinct(name, connections[n], c);
      }
      forall d | d in view.conns
        ensures NameOf(d) != NameOf(c)
      {
        NamesAreDistinct(name, d, c);
      }
      nextConnId := nextConnId + 1;
      connections := connections[NameOf(c) := c];
      ioTasks := ioTasks + [CallEstablished(c)];
      view := Step(view, Event.NewConnection);
    }

    /** `removeConnection`, the close callback: the dispatch of the connection at the head of the active list
        reaches `handleClose`. */
    method RemoveConnection(c: ConnId, ghost revents: Poller.Events, ghost read: int)
      requires Valid() && Closes(revents, read) == 1
      requires view.phase.Events? && |view.phase.active| > 0 && view.phase.active[0] == c
      modifies this`removals, this`view
      ensures Valid() && view == Step(old(view), HandleEvent(revents, read, false))
      ensures removals == old(removals) + [c]
    {
      KnownConnections(view);
      ReachableStep(view, HandleEvent(revents, read, false));
      removals := removals + [c];
      view := Step(view, HandleEvent(revents, read, false));
    }

    /** The main loop runs the oldest `removeConnectionInLoop`; the erase takes this connection out and no
        other. */
    method RemoveConnectionInLoop()
      requires Valid() && |removals| > 0 && view.shutting.None?
      modifies this
      ensures Valid() && view == Step(old(view), RunRemoval)
      ensures forall n :: n in connections <==> n in old(connections) && old(connections)[n] != old(removals[0])
      ensures removals == old(removals)[1..] && ioTasks == old(ioTasks) + [CallDestroyed(old(removals[0]))]
      ensures nextConnId == old(nextConnId)
    {
      KnownConnections(view);
      ReachableStep(view, RunRemoval);
      var c := removals[0];
      forall d | d in view.conns
        ensures NameOf(d) == NameOf(c) <==> d == c
      {
        NamesAreDistinct(name, d, c);
      }
      removals := removals[1..];
      connections := connections - {NameOf(c)};
      ioTasks := ioTasks + [CallDestroyed(c)];
      view := Step(view, RunRemoval);
    }

    /** The main thread queues the `shutdownInloop` of the connection whose state it has set. */
    method QueueShutdown(c: ConnId)
      requires Valid() && view.shutting == Some(c)
      modifies this`ioTasks, this`view
      ensures Valid() && view == Step(old(view), PushShutdown) && ioTasks == old(ioTasks) + [CallShutdown(c)]
    {
      ReachableStep(view, PushShutdown);
      ioTasks := ioTasks + [CallShutdown(c)];
      view := Step(view, PushShutdown);
    }

    /** The IO loop takes the next task of its batch. */
    method TakeIoTask() returns (t: Task)
      requires Valid() && view.phase == Tasks && view.batch > 0 && |ioTasks| > 0
      modifies this`ioTasks, this`view
      ensures Valid() && view == Step(old(view), RunTask)
      ensures [t] + ioTasks == old(ioTasks)
    {
      KnownConnections(view);
      ReachableStep(view, RunTask);
      t := ioTasks[0];
      ioTasks := ioTasks[1..];
      view := Step(view, RunTask);
    }

    /** What the loops do elsewhere: the state change of `shutdown`, the poll, a dispatch that does not close,
        and the start and end of a batch. */
    ghost method Elsewhere(e: Event)
      requires Valid()
      requires e.BeginShutdown? || e.Poll? || e.SwapTasks? || e.EndTasks?
               || (e.HandleEvent? && Closes(e.revents, e.read) == 0)
      modifies this`view
      ensures Valid() && view == Step(old(view), e)
    {
      ReachableStep(view, e);
      view := Step(view, e);
    }
  }
}
