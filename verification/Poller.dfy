/** Net/Channel.h, Net/Channel.cc, Net/Epoller.cc: channels, the poller's table and the kernel's interest
    set, which mirrors them. */
module Poller {

  type Fd = int
  /** The low byte of an epoll event mask holds every bit that is used here. */
  type Events = bv8

  const EPOLLIN: Events := 0x01
  const EPOLLPRI: Events := 0x02
  const EPOLLOUT: Events := 0x04
  const EPOLLHUP: Events := 0x10

  const K_NONE_EVENT: Events := 0
  const K_READ_EVENT: Events := EPOLLIN | EPOLLPRI
  const K_WRITE_EVENT: Events := EPOLLOUT

  /** A channel's standing with the poller: never added, in the kernel's set, or taken out of it again. */
  datatype Index = New | Added | Deleted

  datatype Chan = Chan(events: Events, index: Index)

  /** `chans` are the channels of one loop, by file descriptor; `table` is the key set of `channels_`;
      `kernel` is the epoll instance, which refuses to add a present descriptor and to modify or delete an
      absent one: `failures` counts the refusals. */
  datatype Polling = Polling(chans: map<Fd, Chan>, table: set<Fd>, kernel: map<Fd, Events>, failures: nat)

  const INITIAL := Polling(map[], {}, map[], 0)

  datatype Op =
    | EnableReading(fd: Fd) | DisableReading(fd: Fd) | EnableWriting(fd: Fd) | DisableWriting(fd: Fd)
    | DisableAll(fd: Fd) | Remove(fd: Fd) | Create(fd: Fd) | Drop(fd: Fd)

  datatype Ctl = Add | Mod | Del

  function EpollCtl(s: Polling, op: Ctl, fd: Fd, events: Events): Polling {
    if (op == Add) == (fd in s.kernel) then s.(failures := s.failures + 1)
    else s.(kernel := if op == Del then s.kernel - {fd} else s.kernel[fd := events])
  }

  function SetIndex(s: Polling, fd: Fd, index: Index): Polling
    requires fd in s.chans
  {
    s.(chans := s.chans[fd := s.chans[fd].(index := index)])
  }

  /** `Epoller::updateChannel`, after the channel's interest has become `events`. */
  function Update(s: Polling, fd: Fd, events: Events): Polling
    requires fd in s.chans
  {
    var s' := s.(chans := s.chans[fd := s.chans[fd].(events := events)]);
    if s.chans[fd].index != Added then
      EpollCtl(SetIndex(s'.(table := s.table + {fd}), fd, Added), Add, fd, events)
    else if events == K_NONE_EVENT then
      SetIndex(EpollCtl(s', Del, fd, events), fd, Deleted)
    else
      EpollCtl(s', Mod, fd, events)
  }

  /** `Epoller::removeChannel`. */
  function RemoveChan(s: Polling, fd: Fd): Polling
    requires fd in s.chans
  {
    var s' := s.(table := s.table - {fd});
    SetIndex(if s.chans[fd].index == Added then EpollCtl(s', Del, fd, s.chans[fd].events) else s', fd, New)
  }

  function Interest(events: Events, op: Op): Events {
    match op
    case EnableReading(_) => events | K_READ_EVENT
    case DisableReading(_) => events & !K_READ_EVENT
    case EnableWriting(_) => events | K_WRITE_EVENT
    case DisableWriting(_) => events & !K_WRITE_EVENT
    case _ => K_NONE_EVENT
  }

  /** Any operation on any descriptor; one without a channel does nothing. `Create` is a new channel on an
      unused descriptor, `Drop` its destruction once it has been removed. */
  function Step(s: Polling, op: Op): Polling {
    match op
    case Create(fd) => if fd in s.chans then s else s.(chans := s.chans[fd := Chan(K_NONE_EVENT, New)])
    case Drop(fd) => if fd !in s.chans || s.chans[fd].index != New then s else s.(chans := s.chans - {fd})
    case Remove(fd) => if fd !in s.chans then s else RemoveChan(s, fd)
    case _ => if op.fd !in s.chans then s else Update(s, op.fd, Interest(s.chans[op.fd].events, op))
  }

  function RunTo(ops: seq<Op>, n: nat): Polling
    requires n <= |ops|
  {
    if n == 0 then INITIAL else Step(RunTo(ops, n - 1), ops[n - 1])
  }

  /** The kernel's set is exactly the interest of the added channels, the table holds exactly the added and
      the deleted ones, and the kernel never refused anything. */
  ghost predicate Mirror(s: Polling) {
    && s.failures == 0
    && (forall fd :: fd in s.kernel <==> fd in s.chans && s.chans[fd].index == Added)
    && (forall fd | fd in s.kernel :: s.kernel[fd] == s.chans[fd].events)
    && (forall fd :: fd in s.table <==> fd in s.chans && s.chans[fd].index != New)
  }

  lemma UpdateKeepsMirror(s: Polling, fd: Fd, events: Events)
    requires Mirror(s) && fd in s.chans
    ensures Mirror(Update(s, fd, events))
  {
  }

  lemma {:induction false} MirrorAlways(ops: seq<Op>, n: nat)
    requires n <= |ops|
    ensures Mirror(RunTo(ops, n))
  {
    if n > 0 {
      MirrorAlways(ops, n - 1);
      var s, op := RunTo(ops, n - 1), ops[n - 1];
      if !op.Create? && !op.Drop? && !op.Remove? && op.fd in s.chans {
        UpdateKeepsMirror(s, op.fd, Interest(s.chans[op.fd].events, op));
      }
    }
  }

  /** For any sequence of operations on channels with distinct descriptors, the kernel's interest set is
      {fd -> events} of the added channels and no `epoll_ctl` fails. */
  lemma KernelMirrorsChannels(ops: seq<Op>)
    ensures var s := RunTo(ops, |ops|);
            && s.failures == 0
            && s.kernel == (map fd | fd in s.chans && s.chans[fd].index == Added :: s.chans[fd].events)
            && s.table == (set fd | fd in s.chans && s.chans[fd].index != New)
  {
    MirrorAlways(ops, |ops|);
    MirrorIsExact(RunTo(ops, |ops|));
  }

  lemma MirrorIsExact(s: Polling)
    requires Mirror(s)
    ensures s.kernel == (map fd | fd in s.chans && s.chans[fd].index == Added :: s.chans[fd].events)
    ensures s.table == (set fd | fd in s.chans && s.chans[fd].index != New)
  {
    var added := map fd | fd in s.chans && s.chans[fd].index == Added :: s.chans[fd].events;
    forall fd
      ensures fd in s.kernel.Keys <==> fd in added.Keys
    {
      assert fd in s.kernel <==> fd in s.chans && s.chans[fd].index == Added;
    }
    assert s.kernel.Keys == added.Keys;
    assert forall fd | fd in s.kernel :: s.kernel[fd] == added[fd];
    assert forall fd :: fd in s.table <==> fd in s.chans && s.chans[fd].index != New;
  }

  /** Reading and writing interest are independent bits. */
  lemma InterestBits(events: Events)
    ensures (events | K_READ_EVENT) & K_WRITE_EVENT == events & K_WRITE_EVENT
    ensures (events & !K_READ_EVENT) & K_WRITE_EVENT == events & K_WRITE_EVENT
    ensures (events | K_WRITE_EVENT) & K_READ_EVENT == events & K_READ_EVENT
    ensures (events & !K_WRITE_EVENT) & K_READ_EVENT == events & K_READ_EVENT
    ensures (events | K_READ_EVENT) & K_READ_EVENT == K_READ_EVENT && (events & !K_READ_EVENT) & K_READ_EVENT == 0
    ensures (events | K_WRITE_EVENT) & K_WRITE_EVENT == K_WRITE_EVENT && (events & !K_WRITE_EVENT) & K_WRITE_EVENT == 0
  {
  }

  /** Disabling an already deleted channel puts it back into the kernel with an empty interest, where hang-ups
      are still reported. */
  lemma DisablingTwiceAddsAgain(fd: Fd)
    ensures var ops := [Create(fd), EnableReading(fd), DisableAll(fd), DisableAll(fd)];
            RunTo(ops, 3).kernel == map[] && RunTo(ops, 4).kernel == map[fd := K_NONE_EVENT]
  {
    var ops := [Create(fd), EnableReading(fd), DisableAll(fd), DisableAll(fd)];
    assert RunTo(ops, 1) == Step(INITIAL, Create(fd));
    assert RunTo(ops, 2) == Step(RunTo(ops, 1), EnableReading(fd));
    assert RunTo(ops, 2).chans[fd].index == Added;
    assert RunTo(ops, 3) == Step(RunTo(ops, 2), DisableAll(fd));
    assert RunTo(ops, 4) == Step(RunTo(ops, 3), DisableAll(fd));
  }

  // ---------------------------------------------------------------- the classes

  class Channel {
    const fd: Fd
    const loop: Epoller
    var events: Events
    var index: Index

    constructor (loop: Epoller, fd: Fd)
      requires loop.Valid() && fd !in loop.registry
      modifies loop
      ensures this.loop == loop && this.fd == fd
      ensures Live() && loop.registry == old(loop.registry)[fd := this]
      ensures loop.view == Step(old(loop.view), Create(fd))
    {
      this.loop, this.fd := loop, fd;
      events, index := K_NONE_EVENT, New;
      new;
      loop.registry := loop.registry[fd := this];
      loop.view := Step(loop.view, Create(fd));
    }

    /** Registered with its loop under its own descriptor. */
    ghost predicate Live()
      reads this, loop, loop.registry.Values
    {
      loop.Valid() && fd in loop.registry && loop.registry[fd] == this
    }

    predicate IsWriting()
      reads this
    {
      events & K_WRITE_EVENT != 0
    }

    predicate IsReading()
      reads this
    {
      events & K_READ_EVENT != 0
    }

    predicate IsNonEvent()
      reads this
    {
      events == K_NONE_EVENT
    }

    method EnableReading()
      requires Live()
      modifies this, loop
      ensures Live() && loop.registry == old(loop.registry)
      ensures loop.view == Step(old(loop.view), Op.EnableReading(fd))
      ensures events == old(events) | EPOLLIN | EPOLLPRI && index == Added
      ensures IsReading() && IsWriting() == old(IsWriting())
    {
      InterestBits(events);
      events := events | K_READ_EVENT;
      loop.UpdateChannel(this);
    }

    method DisableReading()
      requires Live()
      modifies this, loop
      ensures Live() && loop.registry == old(loop.registry)
      ensures loop.view == Step(old(loop.view), Op.DisableReading(fd))
      ensures events == old(events) & !(EPOLLIN | EPOLLPRI)
      ensures !IsReading() && IsWriting() == old(IsWriting())
      ensures index == if old(index) == Added && IsNonEvent() then Deleted else Added
    {
      InterestBits(events);
      events := events & !K_READ_EVENT;
      loop.UpdateChannel(this);
    }

    method EnableWriting()
      requires Live()
      modifies this, loop
      ensures Live() && loop.registry == old(loop.registry)
      ensures loop.view == Step(old(loop.view), Op.EnableWriting(fd))
      ensures events == old(events) | EPOLLOUT && index == Added
      ensures IsWriting() && IsReading() == old(IsReading())
    {
      InterestBits(events);
      events := events | K_WRITE_EVENT;
      loop.UpdateChannel(this);
    }

    method DisableWriting()
      requires Live()
      modifies this, loop
      ensures Live() && loop.registry == old(loop.registry)
      ensures loop.view == Step(old(loop.view), Op.DisableWriting(fd))
      ensures events == old(events) & !EPOLLOUT
      ensures !IsWriting() && IsReading() == old(IsReading())
      ensures index == if old(index) == Added && IsNonEvent() then Deleted else Added
    {
      InterestBits(events);
      events := events & !K_WRITE_EVENT;
      loop.UpdateChannel(this);
    }

    method DisableAll()
      requires Live()
      modifies this, loop
      ensures Live() && loop.registry == old(loop.registry)
      ensures loop.view == Step(old(loop.view), Op.DisableAll(fd))
      ensures events == 0 && index == if old(index) == Added then Deleted else Added
    {
      events := K_NONE_EVENT;
      loop.UpdateChannel(this);
    }

    method Remove()
      requires Live()
      modifies this`index, loop
      ensures Live() && loop.registry == old(loop.registry)
      ensures loop.view == Step(old(loop.view), Op.Remove(fd))
      ensures index == New
    {
      loop.RemoveChannel(this);
    }
  }

  class Epoller {
    var channels: map<Fd, Channel>
    /** The epoll instance and how often it refused an `epoll_ctl`. */
    var kernel: map<Fd, Events>
    var failures: nat

    /** Every channel of this loop that exists, and the state of the machine. */
    ghost var registry: map<Fd, Channel>
    ghost var view: Polling

    /** The machine describes this object and its channels, except perhaps the interest of `changing`. */
    ghost predicate Agrees(changing: Channel?)
      reads this, registry.Values
    {
      && (forall fd | fd in registry ::
            && registry[fd].fd == fd && registry[fd].loop == this && fd in view.chans
            && registry[fd].index == view.chans[fd].index
            && (registry[fd] != changing ==> registry[fd].events == view.chans[fd].events))
      && (forall fd | fd in view.chans :: fd in registry)
      && (forall fd | fd in channels :: fd in registry && channels[fd] == registry[fd])
      && channels.Keys == view.table && kernel == view.kernel && failures == view.failures
    }

    ghost predicate Valid()
      reads this, registry.Values
    {
      Agrees(null) && Mirror(view)
    }

    constructor ()
      ensures Valid() && view == INITIAL && registry == map[]
    {
      channels, kernel, failures, registry, view := map[], map[], 0, map[], INITIAL;
    }

    /** The call to `epoll_ctl`. */
    method CtlChannel(op: Ctl, channel: Channel)
      modifies this`kernel, this`failures
      ensures var refused := (op == Add) == (channel.fd in old(kernel));
              && failures == old(failures) + (if refused then 1 else 0)
              && kernel == if refused then old(kernel)
                           else if op == Del then old(kernel) - {channel.fd}
                           else old(kernel)[channel.fd := channel.events]
    {
      if (op == Add) == (channel.fd in kernel) {
        failures := failures + 1;
      } else if op == Del {
        kernel := kernel - {channel.fd};
      } else {
        kernel := kernel[channel.fd := channel.events];
      }
    }

    /** `updateChannel`, called with the new interest already in the channel. */
    method UpdateChannel(channel: Channel)
      requires Agrees(channel) && Mirror(view) && channel.fd in registry && registry[channel.fd] == channel
      modifies this`channels, this`kernel, this`failures, this`view, channel`index
      ensures Valid()
      ensures channel.index == if old(channel.index) == Added && channel.IsNonEvent() then Deleted else Added
      ensures view == Update(old(view), channel.fd, channel.events)
    {
      UpdateKeepsMirror(view, channel.fd, channel.events);
      if channel.index == New || channel.index == Deleted {
        AddChannel(channel);
      } else {
        ChangeChannel(channel);
      }
    }

    /** The branch for a channel that is not in the kernel's set. */
    method AddChannel(channel: Channel)
      requires Agrees(channel) && channel.fd in registry && registry[channel.fd] == channel
      requires channel.index != Added
      modifies this`channels, this`kernel, this`failures, this`view, channel`index
      ensures Agrees(null) && channel.index == Added
      ensures view == Update(old(view), channel.fd, channel.events)
    {
      channels := channels[channel.fd := channel];
      channel.index := Added;
      CtlChannel(Add, channel);
      view := Update(view, channel.fd, channel.events);
    }

    /** The branch for a channel that is in it. */
    method ChangeChannel(channel: Channel)
      requires Agrees(channel) && channel.fd in registry && registry[channel.fd] == channel
      requires channel.index == Added
      modifies this`channels, this`kernel, this`failures, this`view, channel`index
      ensures Agrees(null) && channel.index == if channel.IsNonEvent() then Deleted else Added
      ensures view == Update(old(view), channel.fd, channel.events)
    {
      if channel.IsNonEvent() {
        CtlChannel(Del, channel);
        channel.index := Deleted;
      } else {
        CtlChannel(Mod, channel);
      }
      view := Update(view, channel.fd, channel.events);
    }

    method RemoveChannel(channel: Channel)
      requires Valid() && channel.fd in registry && registry[channel.fd] == channel
      modifies this`channels, this`kernel, this`failures, this`view, channel`index
      ensures Valid() && channel.index == New
      ensures view == RemoveChan(old(view), channel.fd)
    {
      channels := channels - {channel.fd};
      if channel.index == Added {
        CtlChannel(Del, channel);
      }
      channel.index := New;
      view := RemoveChan(view, channel.fd);
    }
  }
}
