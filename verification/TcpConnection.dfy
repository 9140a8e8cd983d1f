/** Net/TcpConnection.cc: the connection with its output buffer and its channel.

    Every handler says that the machine of OutputStream.dfy takes the corresponding step, and that the
    channel stays registered, so the kernel's interest set follows as proved in Poller.dfy. System calls are
    parameters: what the kernel returned. */
module TcpConnection {
  import opened OutputStream
  import opened Poller
  import opened Buffer
  import opened Integers
  import opened Sequences
  import Lifecycle

  /** `CloseLink` for every close. */
  function Closed(l: Lifecycle.Link, closes: nat): Lifecycle.Link {
    if closes == 0 then l else Lifecycle.CloseLink(Closed(l, closes - 1))
  }

  function ClosedStream(s: Stream, closes: nat): Stream {
    if closes == 0 then s else OutputStream.Step(ClosedStream(s, closes - 1), Close)
  }

  lemma CloseCounts(s: Stream, l: Lifecycle.Link)
    ensures ClosedStream(s, 1) == OutputStream.Step(s, Close) && Closed(l, 1) == Lifecycle.CloseLink(l)
    ensures ClosedStream(s, 2) == OutputStream.Step(ClosedStream(s, 1), Close)
    ensures Closed(l, 2) == Lifecycle.CloseLink(Closed(l, 1))
  {
  }

  /** A message that the message callback sends, with what `write` returns if it is called for it. */
  datatype Reply = Reply(message: seq<Byte>, result: int)

  /** What the message callback does to the connection: it sends, and then it may shut down. */
  datatype Answer = Answer(replies: seq<Reply>, shuts: bool)

  const SILENT := Answer([], false)

  function ReplyStep(s: Stream, reply: Reply): Stream {
    OutputStream.Step(s, Event.Send(reply.message, reply.result))
  }

  /** The stream after the replies. */
  function Replied(s: Stream, replies: seq<Reply>): Stream
    decreases |replies|
  {
    if |replies| == 0 then s else Replied(ReplyStep(s, replies[0]), replies[1..])
  }

  /** The kernel may return all of these results. */
  predicate AllPossible(s: Stream, replies: seq<Reply>)
    decreases |replies|
  {
    |replies| > 0 ==>
      Possible(s, |replies[0].message|, replies[0].result) && AllPossible(ReplyStep(s, replies[0]), replies[1..])
  }

  /** What the message callback does to the output stream. */
  function Answered(s: Stream, answer: Answer): Stream {
    var s' := Replied(s, answer.replies);
    if answer.shuts then OutputStream.Step(s', Event.Shutdown) else s'
  }

  /** The message callback runs. */
  predicate Hears(revents: Poller.Events, read: int) {
    Lifecycle.Readable(revents) && read > 0
  }

  /** The stream when the read handler is reached: a hang-up without input closes first. */
  function BeforeRead(s: Stream, revents: Poller.Events): Stream {
    ClosedStream(s, if Lifecycle.HungUp(revents) then 1 else 0)
  }

  /** What one `handleEvent` does to the output stream before its write handler: the closes, or a close and
      what the message callback does. */
  function AfterRead(s: Stream, revents: Poller.Events, read: int, answer: Answer): Stream {
    if Hears(revents, read) then Answered(BeforeRead(s, revents), answer)
    else ClosedStream(s, Lifecycle.Closes(revents, read))
  }

  /** A dispatch that closes leaves no write interest, unless the message callback sends after it. */
  lemma ClosedIsNotWriting(s: Stream, revents: Poller.Events, read: int, answer: Answer)
    requires Lifecycle.Closes(revents, read) > 0 && (Hears(revents, read) ==> answer.replies == [])
    ensures !AfterRead(s, revents, read, answer).writing
  {
    CloseCounts(s, Lifecycle.Link(s.state, New));
  }

  function Dispatched(s: Stream, revents: Poller.Events, read: int, answer: Answer, written: int): Stream {
    var s' := AfterRead(s, revents, read, answer);
    if Lifecycle.HasRoom(revents) then OutputStream.Step(s', Writable(written)) else s'
  }

  /** While bytes wait, the replies of a message callback only queue up behind them. */
  lemma {:induction false} RepliesWaitBehind(s: Stream, replies: seq<Reply>)
    requires s.out != [] && s.writing
    ensures var s' := Replied(s, replies);
            s'.taken == s.taken && s.out <= s'.out && s'.writing && s'.closed == s.closed
    decreases |replies|
  {
    if |replies| > 0 {
      var s1 := ReplyStep(s, replies[0]);
      assert s.out <= s1.out;
      RepliesWaitBehind(s1, replies[1..]);
    }
  }

  /** A dispatch that reports room in the socket writes, and writes last: the kernel takes the first `written`
      bytes of what waited before, followed by what the message callback sent. Without that report it takes
      nothing of it. */
  lemma RoomIsUsed(s: Stream, revents: Poller.Events, read: int, answer: Answer, written: int)
    requires OutputStream.Reachable(s) && !s.closed && s.out != [] && Lifecycle.Closes(revents, read) == 0
    requires var s' := AfterRead(s, revents, read, answer); Possible(s', |s'.out|, written) && written > 0
    ensures var s', t := AfterRead(s, revents, read, answer), Dispatched(s, revents, read, answer, written);
            && s.out <= s'.out && (!Hears(revents, read) ==> s'.out == s.out)
            && t.taken == s.taken + (if revents & EPOLLOUT != 0 then s'.out[..written] else [])
            && t.out == if revents & EPOLLOUT != 0 then s'.out[written..] else s'.out
  {
    ReachableInv(s);
    assert |s.out| > 0;
    RepliesWaitBehind(s, answer.replies);
  }

  /** What the message callback does to the standing of a connection. */
  function AnsweredLink(l: Lifecycle.Link, shuts: bool): Lifecycle.Link {
    if shuts then l.(state := ShutdownState(l.state)) else l
  }

  /** What one `handleEvent` does to the standing of an open connection. */
  function DispatchedLink(l: Lifecycle.Link, closes: nat, shuts: bool): Lifecycle.Link {
    if closes == 0 then AnsweredLink(l, shuts) else Closed(l, closes)
  }

  /** That is the dispatch step of Lifecycle.dfy. */
  lemma DispatchIsTheMachines(w: Lifecycle.World, c: Lifecycle.ConnId, revents: Poller.Events, read: int, shuts: bool)
    requires c in w.conns
    ensures var closes := Lifecycle.Closes(revents, read);
            && c in Lifecycle.Dispatch(w, c, closes, shuts).conns
            && Lifecycle.Dispatch(w, c, closes, shuts).conns[c].link == DispatchedLink(w.conns[c].link, closes, shuts)
  {
    var l := w.conns[c].link;
    CloseCounts(OutputStream.INITIAL, l);
  }

  class TcpConnection {
    var state: State
    const channel: Channel
    const outputBuffer: Buffer<Byte>
    var writeShut: bool
    /** The `shutdownInloop` calls that the loop has queued for this connection. */
    var shutdownTasks: nat

    /** Another thread is inside `shutdown`, behind the assignment of the state. */
    ghost var midway: bool
    /** What the kernel has taken, what `send` accepted, and whether `handleClose` ran. */
    ghost var taken: seq<Byte>
    ghost var accepted: seq<Byte>
    ghost var closed: bool

    ghost function View(): Stream
      requires outputBuffer.WellFormed()
      reads this, channel, outputBuffer, outputBuffer.store
    {
      Stream(state, outputBuffer.Contents(), channel.IsWriting(), writeShut, shutdownTasks, midway,
             taken, accepted, closed)
    }

    ghost function Standing(): Lifecycle.Link
      reads this, channel
    {
      Lifecycle.Link(state, channel.index)
    }

    /** Established and not closed yet. */
    predicate Up()
      reads this`state
    {
      state == Connected || state == Disconnecting
    }

    ghost predicate Open()
      reads this
    {
      Up() && !closed
    }

    ghost predicate Valid()
      reads this, channel, channel.loop, channel.loop.registry.Values, outputBuffer, outputBuffer.store
    {
      && channel.Live() && outputBuffer.Valid() && OutputStream.Reachable(View())
      && (Open() ==> channel.IsReading() && channel.index == Added)
    }

    constructor (channel: Channel)
      requires channel.Live() && channel.IsNonEvent()
      ensures Valid() && View() == OutputStream.INITIAL && this.channel == channel
      ensures fresh(outputBuffer) && fresh(outputBuffer.store)
    {
      state, this.channel := Connecting, channel;
      outputBuffer := new Buffer<Byte>(K_INITIAL_SIZE);
      writeShut, shutdownTasks := false, 0;
      midway, taken, accepted, closed := false, [], [], false;
      assert OutputStream.Run([]) == OutputStream.INITIAL;
    }

    method ConnectEstablished()
      requires Valid() && state == Connecting
      modifies this`state, channel, channel.loop
      ensures Valid() && View() == OutputStream.Step(old(View()), Establish)
      ensures state == Connected && channel.IsReading() && channel.IsWriting() == old(channel.IsWriting())
      ensures Standing() == Lifecycle.EstablishLink(old(Standing()))
    {
      ReachableStep(View(), Establish);
      state := Connected;
      channel.EnableReading();
    }

    /** `send(const string&)`; `result` is what `write` returns if it is called. */
    method Send(message: seq<Byte>, result: int)
      requires Valid() && Possible(View(), |message|, result)
      modifies this`taken, this`accepted, channel, channel.loop, outputBuffer, outputBuffer.store
      ensures Valid() && View() == OutputStream.Step(old(View()), Event.Send(message, result))
      ensures var waiting := old(outputBuffer.Contents());
              if waiting == [] then
                var sent := if result > 0 then result else 0;
                && taken == old(taken) + message[..sent]
                && outputBuffer.Contents() == (if result < 0 then [] else message[sent..Kept(|message|, sent)])
                && (channel.IsWriting() <==> outputBuffer.Contents() != [])
              else
                && taken == old(taken) && outputBuffer.Contents() == waiting + message[..Kept(|message|, 0)]
                && (Open() ==> channel.IsWriting())
      ensures outputBuffer.store == old(outputBuffer.store) || fresh(outputBuffer.store)
      ensures Open() ==> Standing() == old(Standing())
    {
      ReachableStep(View(), Event.Send(message, result));
      ReachableInv(View());
      ReachableIsQuiet(View());
      var remain := Int32(|message|);
      var sendSize := 0;
      if !channel.IsWriting() && outputBuffer.ReadableBytes() == 0 {
        sendSize := result;
        if sendSize >= 0 {
          remain := Int32(remain - sendSize);
        } else {
          return;
        }
      }
      Keep(message, sendSize, remain);
    }

    /** The rest of `send`, after the direct write took `sendSize` bytes. */
    method Keep(message: seq<Byte>, sendSize: nat, remain: int)
      requires channel.Live() && outputBuffer.Valid() && sendSize <= |message| && remain == Remain(|message|, sendSize)
      modifies this`taken, this`accepted, channel, channel.loop, outputBuffer, outputBuffer.store
      ensures channel.Live() && outputBuffer.Valid()
      ensures View() == OutputStream.Keep(old(View()), message, sendSize)
      ensures taken == old(taken) + message[..sendSize]
      ensures outputBuffer.Contents() == old(outputBuffer.Contents()) + message[sendSize..Kept(|message|, sendSize)]
      ensures channel.IsWriting() <==> old(channel.IsWriting()) || sendSize < Kept(|message|, sendSize)
      ensures outputBuffer.store == old(outputBuffer.store) || fresh(outputBuffer.store)
      ensures old(channel.IsReading()) ==> channel.IsReading()
      ensures old(channel.index) == Added ==> channel.index == Added
    {
      taken := taken + message[..sendSize];
      accepted := accepted + message[..Kept(|message|, sendSize)];
      if remain > 0 {
        Buffered(message[sendSize..sendSize + remain]);
      }
    }

    /** The part of `send` that keeps what the kernel did not take. */
    method Buffered(rest: seq<Byte>)
      requires channel.Live() && outputBuffer.Valid()
      modifies channel, channel.loop, outputBuffer, outputBuffer.store
      ensures channel.Live() && outputBuffer.Valid()
      ensures outputBuffer.Contents() == old(outputBuffer.Contents()) + rest
      ensures channel.IsWriting() && (old(channel.IsReading()) ==> channel.IsReading())
      ensures old(channel.index) == Added ==> channel.index == Added
      ensures outputBuffer.store == old(outputBuffer.store) || fresh(outputBuffer.store)
    {
      outputBuffer.Append(rest);
      if !channel.IsWriting() {
        channel.EnableWriting();
      }
    }

    /** `send(Buffer*)`: sends the buffer's contents and empties it, but only while connected. */
    method SendBuffer(buffer: Buffer<Byte>, result: int)
      requires Valid() && buffer.Valid() && buffer != outputBuffer && buffer.store != outputBuffer.store
      requires Possible(View(), |buffer.Contents()|, result)
      modifies this`taken, this`accepted, channel, channel.loop, outputBuffer, outputBuffer.store
      modifies buffer`readIdx, buffer`writeIdx
      ensures Valid() && buffer.Valid()
      ensures View() == if old(state) == Connected
                        then OutputStream.Step(old(View()), Event.Send(old(buffer.Contents()), result)) else old(View())
      ensures buffer.Contents() == if old(state) == Connected then [] else old(buffer.Contents())
    {
      if state == Connected {
        Send(buffer.Peek(), result);
        buffer.RetrieveAll();
      }
    }

    /** `handleWrite`, when `write` returns `n`. */
    method HandleWrite(n: int)
      requires Valid() && Possible(View(), |outputBuffer.Contents()|, n)
      modifies this`taken, this`writeShut, channel, channel.loop, outputBuffer`readIdx, outputBuffer`writeIdx
      ensures Valid() && View() == OutputStream.Step(old(View()), Writable(n))
      ensures var waiting := old(outputBuffer.Contents());
              if !old(channel.IsWriting()) || n <= 0 then
                && taken == old(taken) && outputBuffer.Contents() == waiting
                && channel.IsWriting() == old(channel.IsWriting())
              else
                && taken == old(taken) + waiting[..n] && outputBuffer.Contents() == waiting[n..]
                && (channel.IsWriting() <==> n < |waiting|)
                && writeShut == (old(writeShut) || (n == |waiting| && state == Disconnecting))
      ensures Open() || !old(channel.IsWriting()) ==> Standing() == old(Standing())
    {
      hide OutputStream.Reachable;
      ReachableStep(View(), Writable(n));
      if channel.IsWriting() && n > 0 {
        taken := taken + outputBuffer.Peek()[..n];
        outputBuffer.Retrieve(n);
        if outputBuffer.ReadableBytes() == 0 {
          channel.DisableWriting();
          if state == Disconnecting {
            ShutdownInLoop();
          }
        }
      }
    }

    /** `shutdownInloop`: shuts the write side unless bytes are waiting. */
    method ShutdownInLoop()
      modifies this`writeShut
      ensures writeShut == (old(writeShut) || !channel.IsWriting())
    {
      if !channel.IsWriting() {
        writeShut := true;
      }
    }

    /** `shutdown`, by the loop's own thread. */
    method Shutdown()
      requires Valid()
      modifies this`state, this`writeShut
      ensures Valid() && View() == OutputStream.Step(old(View()), Event.Shutdown)
      ensures state == if old(state) == Connected then Disconnecting else old(state)
      ensures writeShut == (old(writeShut) || (old(state) == Connected && !channel.IsWriting()))
    {
      ReachableStep(View(), Event.Shutdown);
      if state == Connected {
        state := Disconnecting;
        ShutdownInLoop();
      }
    }

    /** `shutdown` by another thread, up to the assignment; `queues` says whether it goes on. */
    method BeginShutdown() returns (queues: bool)
      requires Valid()
      modifies this`state, this`midway
      ensures Valid() && View() == OutputStream.Step(old(View()), Event.BeginShutdown)
      ensures queues <==> old(state) == Connected
      ensures state == if queues then Disconnecting else old(state)
    {
      ReachableStep(View(), Event.BeginShutdown);
      queues := state == Connected;
      if queues {
        state := Disconnecting;
        midway := true;
      }
    }

    /** The rest of it: the push of `shutdownInloop` into the loop's queue. */
    method QueueShutdown()
      requires Valid() && midway
      modifies this`shutdownTasks, this`midway
      ensures Valid() && View() == OutputStream.Step(old(View()), Event.QueueShutdown)
      ensures shutdownTasks == old(shutdownTasks) + 1
    {
      ReachableStep(View(), Event.QueueShutdown);
      shutdownTasks := shutdownTasks + 1;
      midway := false;
    }

    /** The loop runs a queued `shutdownInloop`. */
    method RunShutdownTask()
      requires Valid() && shutdownTasks > 0
      modifies this`writeShut, this`shutdownTasks
      ensures Valid() && View() == OutputStream.Step(old(View()), Event.RunShutdownTask)
      ensures shutdownTasks == old(shutdownTasks) - 1 && writeShut == (old(writeShut) || !channel.IsWriting())
    {
      ReachableStep(View(), Event.RunShutdownTask);
      shutdownTasks := shutdownTasks - 1;
      ShutdownInLoop();
    }

    /** `handleClose` up to the callbacks. */
    method HandleClose()
      requires Valid()
      modifies this`state, this`closed, channel, channel.loop
      ensures Valid() && View() == OutputStream.Step(old(View()), Close) && channel.IsNonEvent()
      ensures state == Disconnected && channel.index == if old(channel.index) == Added then Deleted else Added
      ensures Standing() == Lifecycle.CloseLink(old(Standing()))
    {
      ReachableStep(View(), Close);
      state := Disconnected;
      channel.DisableAll();
      closed := true;
    }

    /** The sends of the message callback. */
    method SendReplies(replies: seq<Reply>)
      requires Valid() && AllPossible(View(), replies)
      modifies this`taken, this`accepted, channel, channel.loop, outputBuffer, outputBuffer.store
      ensures Valid() && View() == Replied(old(View()), replies)
      ensures outputBuffer.store == old(outputBuffer.store) || fresh(outputBuffer.store)
      ensures Open() || replies == [] ==> Standing() == old(Standing())
      decreases |replies|
    {
      if |replies| > 0 {
        Send(replies[0].message, replies[0].result);
        SendReplies(replies[1..]);
      }
    }

    /** The message callback: it sends its replies, and then it may shut down. */
    method MessageCallback(answer: Answer)
      requires Valid() && AllPossible(View(), answer.replies)
      modifies this`state, this`writeShut, this`taken, this`accepted
      modifies channel, channel.loop, outputBuffer, outputBuffer.store
      ensures Valid() && View() == Answered(old(View()), answer)
      ensures outputBuffer.store == old(outputBuffer.store) || fresh(outputBuffer.store)
      ensures old(Open()) || answer.replies == [] ==> Standing() == AnsweredLink(old(Standing()), answer.shuts)
    {
      SendReplies(answer.replies);
      if answer.shuts {
        Shutdown();
      }
    }

    /** `handleRead`, when `readFd` returns `n`. */
    method HandleRead(n: int, answer: Answer)
      requires Valid() && (n > 0 ==> AllPossible(View(), answer.replies))
      modifies this, channel, channel.loop, outputBuffer, outputBuffer.store
      ensures Valid()
      ensures outputBuffer.store == old(outputBuffer.store) || fresh(outputBuffer.store)
      ensures View() == if n > 0 then Answered(old(View()), answer)
                        else if n == 0 then OutputStream.Step(old(View()), Close) else old(View())
      ensures old(Open()) || answer.replies == [] || n <= 0 ==>
                Standing() == if n > 0 then AnsweredLink(old(Standing()), answer.shuts)
                              else if n == 0 then Lifecycle.CloseLink(old(Standing())) else old(Standing())
      ensures n != 0 ==> closed == old(closed)
    {
      if n > 0 {
        MessageCallback(answer);
      } else if n == 0 {
        HandleClose();
      }
    }

    /** The close and read handlers of `Channel::handleEvent`. */
    method HandleInput(revents: Poller.Events, read: int, answer: Answer)
      requires Valid() && Open()
      requires Hears(revents, read) ==> AllPossible(BeforeRead(View(), revents), answer.replies)
      modifies this, channel, channel.loop, outputBuffer, outputBuffer.store
      ensures Valid() && View() == AfterRead(old(View()), revents, read, answer)
      ensures outputBuffer.store == old(outputBuffer.store) || fresh(outputBuffer.store)
      ensures Lifecycle.Closes(revents, read) == 0 || !Hears(revents, read) || answer.replies == [] ==>
                && Standing() == DispatchedLink(old(Standing()), Lifecycle.Closes(revents, read),
                                                Hears(revents, read) && answer.shuts)
                && (Open() || !channel.IsWriting())
    {
      CloseCounts(View(), Standing());
      if Lifecycle.Closes(revents, read) > 0 && (Hears(revents, read) ==> answer.replies == []) {
        ClosedIsNotWriting(View(), revents, read, answer);
      }
      if Lifecycle.HungUp(revents) {
        HandleClose();
      }
      if Lifecycle.Readable(revents) {
        HandleRead(read, answer);
      }
    }

    /** `Channel::handleEvent` with this connection's handlers, in the order in which it calls them. Unless
        the message callback sends on a connection that this dispatch has closed, its standing changes as in
        the life-cycle machine. */
    method HandleEvent(revents: Poller.Events, read: int, answer: Answer, written: int)
      requires Valid() && Open()
      requires Hears(revents, read) ==> AllPossible(BeforeRead(View(), revents), answer.replies)
      requires var s := AfterRead(View(), revents, read, answer); Possible(s, |s.out|, written)
      modifies this, channel, channel.loop, outputBuffer, outputBuffer.store
      ensures Valid() && View() == Dispatched(old(View()), revents, read, answer, written)
      ensures Lifecycle.Closes(revents, read) == 0 || !Hears(revents, read) || answer.replies == [] ==>
                Standing() == DispatchedLink(old(Standing()), Lifecycle.Closes(revents, read),
                                             Hears(revents, read) && answer.shuts)
    {
      HandleInput(revents, read, answer);
      if revents & EPOLLOUT != 0 {
        HandleWrite(written);
      }
    }

    /** `connectDestoryed`; `again` reports that it took the branch of a connection still up. */
    method ConnectDestroyed() returns (again: bool)
      requires Valid()
      modifies this`state, this`closed, channel, channel.loop
      ensures channel.Live() && Standing() == Lifecycle.DestroyLink(old(Standing()))
      ensures channel.index == New && state == if again then Disconnected else old(state)
      ensures again <==> old(state) == Connected
      ensures again ==> channel.IsNonEvent()
    {
      again := state == Connected;
      if again {
        state := Disconnected;
        channel.DisableAll();
      }
      channel.Remove();
    }

    /** While the connection is open, the kernel reports writability exactly when bytes wait in the output
        buffer. */
    lemma KernelWatchesPendingOutput()
      requires Valid() && Open()
      ensures channel.fd in channel.loop.kernel
      ensures channel.loop.kernel[channel.fd] & K_WRITE_EVENT != 0 <==> outputBuffer.Contents() != []
    {
      ReachableInv(View());
    }
  }
}
