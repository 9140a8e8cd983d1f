# A verified model of the web server's cores

This project models the multi-reactor web server in Dafny: the asynchronous logger, the event loop's task
queue, the life of a connection with its output stream and its poller, the timers and the idle-connection
reaper, the buffer with the incremental HTTP parser, the length-prefixed codec, and the proxy's cache.
`dafny verify dfyconfig.toml` checks all of it.

Where threads interleave, a module defines a machine: a state, a total step function over the events of all
threads (an event that the acting thread's position does not allow changes nothing), and theorems over every
sequence of events. Beside it, a class with the source's fields has one method for each atomic section. The
object's validity says that the machine is in a state that some run reaches, and the method's contract that it
takes the corresponding step, so the theorems hold of the methods in every interleaving; the contract also says
in the fields' own terms what is new in them. Purely sequential code is a class over arrays or linked objects
whose methods are proved against a specification function, about which the round trips and conservation laws are
then proved.

| core | machine or specification | class |
|---|---|---|
| logger | `LogPool.dfy`, `LogStream.dfy` | `AsyncLogging.dfy`, `LogStream.dfy` |
| event loop | `LoopQueue.dfy` | `EventLoop.dfy` |
| connections | `Lifecycle.dfy`, `OutputStream.dfy`, `Poller.dfy` | `TcpServer.dfy`, `TcpConnection.dfy`, `Poller.dfy` |
| timers | `TimerMachine.dfy` | `TimerQueue.dfy` |
| HTTP server | `IdleReaper.dfy`, `HttpRequest.dfy`, `HttpContent.dfy`, `HttpResponse.dfy`, `HttpServing.dfy`, `Session.dfy`, `Peer.dfy` | `HttpRequest.dfy`, `HttpContent.dfy`, `HttpResponse.dfy`, `HttpServer.dfy` |
| buffer, codec | `Codec.dfy` | `Buffer.dfy`, `Codec.dfy` |
| proxy | `Cache.dfy`, `Proxy.dfy` | `Cache.dfy` |

`Sequences.dfy`, `Integers.dfy` and `Options.dfy` hold what several modules share.

System calls are parameters constrained by what the kernel may do: a write takes any part of what it is
offered or fails, and always fails after SHUT_WR; `epoll_wait` reports distinct registered descriptors;
clock readings do not decrease; `readv` delivers any input that fits its two areas. User callbacks are
parameters as well: the response callback is any function, another one at every message if it likes, and a
message callback of a connection makes any sends and then may shut the connection down.

Properties that turned out to hold only under a condition are stated with it:

- For every set of event masks, all runs whose dispatches report them close and destroy each connection at
  most once if and only if the set holds no hang-up with urgent data and without input
  (`Lifecycle.ClosedAndDestroyedOnceExactly`). The other life-cycle results hold of every run whose dispatches
  close at most once each, which such masks guarantee (`Lifecycle.ClosesAtMostOnceExactly`).
- A task queued by the owner before `loop()` is not woken for (`LoopQueue.NoLostWakeUp`,
  `LoopQueue.EarlyTaskIsNotWoken`). A quit is kept by everything that can happen afterwards if and only if
  `loop()` has passed line 74 of Net/EventLoop.cc (`LoopQueue.QuitIsKeptExactly`); the flag is set if and only if
  somebody called `quit` after that line, or at all while it has not been reached (`LoopQueue.QuitIsSetExactly`).
- Log messages reach the file, the queue or the current buffer, in order and once, if and only if the over-16
  rule never fired (`LogPool.NothingLostExactly`). The number formatter prints decimal text if and only if the
  number is not negative (`LogStream.DecimalExactly`).
- A callback starts within a bound of its expiration in every run of a loop that inserts timers soon after they
  expire, finishes its passes and reads the descriptor in time (`TimerMachine.CallbacksStartInTime`); without
  the first no bound holds (`TimerMachine.LateInsertionsDelay`).
- `append` of the logger and `send` of a connection lose a message in exactly the cases given by
  `LogPool.AppendLosesExactly` and `OutputStream.SendLosesExactly`; the latter include every message of
  which the direct write leaves more than an `int` counts (`OutputStream.KeptWholeExactly`). From end to end,
  the bytes taken and those waiting are the printed answers to the first requests if and only if no reply was
  lost in that way (`Session.AnswersReachTheKernel`).
- A response's text reads back to its status, header lines and body if and only if its status message, and the body
  type where it is printed, hold no CRLF (`HttpResponse.PrintedResponseReadsBack`). From such replies the peer
  reads, response after response, exactly what was answered (`Peer.PeerReadsTheReplies`).
- A connection answers 400 exactly where a complete line stands in place of a request line, is none, and does not make
  the parser throw (`HttpServing.RefusedExactly`). Whether it proposes to close is decided by the last `Connection`
  header, and without one by that of the request before it, since headers are kept (`HttpServing.ClosesExactly`).
- The request-line parser throws on exactly the lines of `HttpRequest.ThrowsExactly`.
- The eviction rule of the proxy's cache never lowers its 32-bit counter. Once the bodies ever written exceed
  the limit the cache holds one object (`Cache.HoldsAllOrTheLast`); when the counter wraps it stops evicting,
  and the byte bound holds of all histories up to a total exactly if that total is at most the largest `int`
  plus the cache limit less two objects plus one (`Cache.BoundHoldsExactly`).
- Pipelined requests are answered one per message callback, so requests keep waiting exactly when some last
  few messages completed more requests than they are (`HttpServing.NothingWaitsExactly`).

The repository's README.md says that GET and HEAD are supported and that timers are in a heap. The model
follows the code: HEAD is refused, POST, PUT and DELETE are accepted, and timers are in an ordered set.

## Model

| member | source | states |
|---|---|---|
| `LogPool.PoolNeverRunsDry` | Log/asynclogging.cc:69-119 | in every schedule of appends and writer actions no null buffer is dereferenced and every `back()`/`pop_back()` has a buffer; `next_buffer_` null implies `buffers_` non-empty; both spares are present and empty at each loop test |
| `LogPool.MessagesAreConserved` | Log/asynclogging.cc:29-121 | accepted messages are, in lock order, the batches taken, the queue and the current buffer; the file holds, of every finished batch, all its buffers if they are at most 16 and otherwise exactly the first two, and of the current one the buffers written so far |
| `LogPool.NothingLostExactly` | Log/asynclogging.cc:88-99 | in every schedule file, buffers being written, queue and current buffer concatenate to the accepted messages if and only if no trimmed batch exceeded 16 buffers |
| `LogPool.AppendLosesExactly` | Log/asynclogging.cc:29-49 | `append` drops its message if and only if the current buffer has some room but too little, or is full and the message exceeds a whole buffer; otherwise it is stored whole at the end |
| `LogPool.RunningExactly` | Log/asynclogging.h:34-41 | in every schedule the logger runs if and only if its start was not followed by a stop, and the writer's loop test goes on to the lock exactly while it runs |
| `LogPool.RunKeepsInv` | Log/asynclogging.cc:29-121 | the pool invariant holds after every prefix of every schedule |
| `AsyncLogging.AsyncLogging.constructor` | Log/asynclogging.cc:10-25 | the fields start as the machine's initial pool, not running |
| `AsyncLogging.AsyncLogging.Start` | Log/asynclogging.h:34-38 | the writer gets to its loop test with `running_` set |
| `AsyncLogging.AsyncLogging.Append` | Log/asynclogging.cc:29-49 | the locked body of `append` takes the machine's append step on the bytes: the text goes behind the current buffer's if it fits, or into an empty one, the old being queued, if that is exactly full |
| `AsyncLogging.AsyncLogging.Stop` | Log/asynclogging.h:41-41 | `stop` clears `running_`, so that the next loop test lets the writer go |
| `AsyncLogging.AsyncLogging.TestRunning` | Log/asynclogging.cc:69-69 | the loop test lets the writer on exactly while running |
| `AsyncLogging.AsyncLogging.SwapBuffers` | Log/asynclogging.cc:71-86 | the critical section takes the machine's swap step: the writer gets the queue and the current buffer, and the producers empty buffers |
| `AsyncLogging.AsyncLogging.DropExcessBuffers` | Log/asynclogging.cc:88-94 | of more than 16 texts the first two stay, and otherwise all |
| `AsyncLogging.AsyncLogging.WriteBuffers` | Log/asynclogging.cc:97-99 | the loop appends to the file exactly the messages of the buffers, in order |
| `AsyncLogging.AsyncLogging.WriteBuffer` | Log/asynclogging.cc:98-98 | one round appends one buffer |
| `AsyncLogging.AsyncLogging.ShrinkBuffers` | Log/asynclogging.cc:101-103 | at most two buffers stay for reuse |
| `AsyncLogging.AsyncLogging.RefillFirst` | Log/asynclogging.cc:105-111 | the first spare is refilled, emptied, from a non-empty vector |
| `AsyncLogging.AsyncLogging.RefillSecond` | Log/asynclogging.cc:113-117 | likewise the second spare |
| `AsyncLogging.AsyncLogging.ClearBuffers` | Log/asynclogging.cc:119-120 | the vector is empty at the next loop test |
| `LogStream.ValueOfDecimal` | Log/logstream.h:83-97 | decimal text is canonical and reading it back gives the value |
| `LogStream.DecimalOfValue` | Log/logstream.h:83-97 | every canonical text is the text of exactly its own value |
| `LogStream.WideDecimalLength` | Log/logstream.h:13-13 | a 64-bit value takes at most 20 digits, inside the 32-byte guard |
| `LogStream.ReverseRange` | Log/logstream.h:95-95 | the in-place swap loop reverses the stretch and leaves the rest alone |
| `LogStream.Convert` | Log/logstream.h:83-97 | writes the truncated remainders with the sign and the NUL, returns the length, touches nothing else |
| `LogStream.DecimalExactly` | Log/logstream.h:83-97 | what is printed is the decimal text if and only if the number is not negative |
| `LogStream.RemaindersOfNegative` | Log/logstream.h:87-92 | a negative number has as many remainders as digits, and the first is printed below the digits |
| `LogStream.WriteDigits` | Log/logstream.h:85-91 | the loop writes the truncated remainders backwards, for either sign |
| `LogStream.EndAndReverse` | Log/logstream.h:94-95 | the NUL goes behind the digits and the digits are reversed |
| `LogStream.LogBuffer.constructor` | Log/logstream.h:60-61 | the buffer starts empty |
| `LogStream.LogBuffer.Append` | Log/logstream.h:27-32 | stores all of the text or, if it does not fit, nothing |
| `LogStream.LogBuffer.Reset` | Log/logstream.h:47-47 | the buffer is empty afterwards |
| `LogStream.LogBuffer.FormatInteger` | Log/logstream.h:101-107 | appends the text if 32 bytes are free and otherwise nothing; the NUL stays inside the array |
| `LoopQueue.TasksRunOnceInOrder` | Net/EventLoop.cc:122-176 | executed, rest of the batch and pending concatenate to the tasks of all calls that queue, in order, in every schedule |
| `LoopQueue.BatchIsTheSnapshot` | Net/EventLoop.cc:159-176 | as long as a batch goes on, what ran and what it still holds are the tasks queued before its swap, whatever is queued meanwhile |
| `LoopQueue.EachCycleDrainsWhatItSaw` | Net/EventLoop.cc:76-95 | back at `poll`, everything queued before any earlier return of `poll` has run, in order |
| `LoopQueue.NoLostWakeUp` | Net/EventLoop.cc:76-134 | at `poll` with a zero eventfd and no thread between push and write, a task is pending if and only if the owner queued one before `loop()` and no swap came since, and no quit called since `loop()` started is outstanding |
| `LoopQueue.QueueingInsideTheLoopIsSafe` | Net/EventLoop.cc:131-133 | without such an early call, pending work at `poll` always has its wake-up |
| `LoopQueue.EarlyTaskIsNotWoken` | Net/EventLoop.cc:131-133 | a schedule that shows the condition is needed |
| `LoopQueue.QuitBeforeLoopIsForgotten` | Net/EventLoop.cc:74-74 | a foreign quit before the flag is reset has no effect |
| `LoopQueue.QuitIsSetExactly` | Net/EventLoop.cc:74-110 | in every schedule the flag is set if and only if the owner or another thread called `quit` and `loop()` did not start after that, and the owner's loop test then ends the loop and otherwise goes on to `poll` |
| `LoopQueue.ForeignQuitWakes` | Net/EventLoop.cc:105-110 | a quit by another thread sets the flag and makes the eventfd readable, at the latest with that thread's next step |
| `LoopQueue.QuitIsKept` | Net/EventLoop.cc:105-110 | a quit inside the loop is never cleared and the owner does not start another poll |
| `LoopQueue.QuitIsKeptExactly` | Net/EventLoop.cc:74-110 | a quit that is set is kept in every later run if and only if `loop()` has passed line 74 |
| `EventLoop.EventLoop.constructor` | Net/EventLoop.cc:42-48 | the fields start as the machine's initial state |
| `EventLoop.EventLoop.Enter` | Net/EventLoop.cc:70-74 | the start of `loop` takes the machine's step, which resets the quit flag |
| `EventLoop.EventLoop.TestQuit` | Net/EventLoop.cc:76-97 | the loop goes on to `poll` exactly when quit is not set |
| `EventLoop.EventLoop.Quit` | Net/EventLoop.cc:105-110 | sets the flag, whoever calls it, and from another thread adds one to the eventfd |
| `EventLoop.EventLoop.RunInLoop` | Net/EventLoop.cc:113-119 | reports the direct call of the owner, push and wake-up by others |
| `EventLoop.EventLoop.QueueInLoop` | Net/EventLoop.cc:122-134 | one task is pending more, and the eventfd one higher for other threads and for the owner while it runs functors |
| `EventLoop.EventLoop.PushFunctor` | Net/EventLoop.cc:123-127 | the locked push is the machine's push step |
| `EventLoop.EventLoop.Wakeup` | Net/EventLoop.cc:137-143 | adds one to the eventfd counter |
| `EventLoop.EventLoop.HandleRead` | Net/EventLoop.cc:147-155 | the read resets the counter |
| `EventLoop.EventLoop.SwapFunctors` | Net/EventLoop.cc:159-169 | the batch is everything pending at the swap, and the flag was set before it |
| `EventLoop.EventLoop.RunNextFunctor` | Net/EventLoop.cc:171-176 | the functors of the batch start one by one in order; the flag is cleared after the last |
| `EventLoop.EventLoop.EndFunctor` | Net/EventLoop.cc:172-172 | the functor returns to the loop |
| `EventLoop.EventLoop.PollReturn` | Net/EventLoop.cc:78-78 | `poll` returns, reporting the eventfd only when it is readable |
| `EventLoop.EventLoop.HandleEvents` | Net/EventLoop.cc:77-84 | the poll and the handlers reset a reported eventfd and add what the handlers queue |
| `EventLoop.EventLoop.QueueAll` | Net/EventLoop.cc:122-134 | user code of the owner queues in order, waking the loop only while functors run |
| `EventLoop.EventLoop.RunOne` | Net/EventLoop.cc:171-175 | one round runs the head of the batch and queues what it queues |
| `EventLoop.EventLoop.RunBatch` | Net/EventLoop.cc:171-175 | the functor loop runs its snapshot in order; what the functors queue stays pending and has woken the loop |
| `EventLoop.EventLoop.Iterate` | Net/EventLoop.cc:76-97 | one uninterrupted iteration runs exactly what was pending and what its handlers queued, in order, and leaves what the functors queued, with the eventfd readable for it |
| `Lifecycle.ClosesAtMostOnceExactly` | Net/Channel.cc:51-71 | one dispatch reaches `handleClose` at most once for every read result if and only if the events are not a hang-up with urgent data and no input |
| `Lifecycle.ReadHandlerMatchesInterest` | Net/Channel.h:49-53 | enabling reading registers exactly the bits on which the read handler runs, disabling it takes exactly these away, and neither touches those of the write handler |
| `Lifecycle.WriteHandlerMatchesInterest` | Net/Channel.h:49-53 | likewise for writing |
| `Lifecycle.ShutdownIsMarkedAndQueued` | Net/TcpConnection.cc:172-177 | in every run a shutdown by the main thread marks the connected connection and no other, and puts its call behind everything queued |
| `Lifecycle.OwnedWhileInUse` | Net/TcpServer.cc:53-107 | in every run of the two loops a connection is owned while its channel is registered, while it is in the active list, and while any task on it waits, also one bound to the bare pointer |
| `Lifecycle.UnownedIsUnregistered` | Net/TcpConnection.cc:53-61 | when the last owner is gone the connection was established, closed and destroyed once each and is out of the poller |
| `Lifecycle.DestroyedOnceAndLast` | Net/TcpServer.cc:53-62 | established, closed, erased, destroyed: each at most once and in this order; a closed one has exactly one removal or destruction queued |
| `Lifecycle.DestroyFindsItDisconnected` | Net/TcpConnection.cc:53-61 | `connectDestoryed` runs in the functor phase after the map erase on a disconnected connection, with no task on it left behind |
| `Lifecycle.UrgentHangUpDestroysTwice` | Net/Channel.cc:51-64 | for every such event set a run with it closes and destroys a connection twice |
| `Lifecycle.ClosedAndDestroyedOnceExactly` | Net/Channel.cc:51-71 | for every set of event sets, all runs over it close and destroy each connection at most once if and only if it holds no hang-up with urgent data and without input |
| `Lifecycle.RunKeepsInv` | Net/TcpServer.cc:53-107 | the life-cycle invariant holds after every prefix of every run whose dispatches close at most once |
| `TcpServer.NamesAreDistinct` | Net/TcpServer.cc:72-75 | connections have the same name if and only if they have the same number, and the 32-byte buffer never truncates it |
| `TcpServer.TcpServer.constructor` | Net/TcpServer.cc:21-27 | the map is empty and numbers start at 1 |
| `TcpServer.TcpServer.NewConnection` | Net/TcpServer.cc:67-107 | takes the machine's step from a reachable state; the new entry replaces no other connection's |
| `TcpServer.TcpServer.RemoveConnection` | Net/TcpServer.cc:53-55 | queues the removal in the main loop while the connection is being dispatched, as the machine's dispatch step |
| `TcpServer.TcpServer.RemoveConnectionInLoop` | Net/TcpServer.cc:57-62 | erases this connection and no other and queues its destruction |
| `TcpServer.TcpServer.QueueShutdown` | Net/TcpConnection.cc:175-175 | the main thread's `shutdown` queues its call behind what is queued |
| `TcpServer.TcpServer.TakeIoTask` | Net/EventLoop.cc:171-173 | the IO loop runs the oldest task of its queue |
| `OutputStream.BytesAreConserved` | Net/TcpConnection.cc:80-145 | until the close, bytes taken and the output buffer concatenate to the accepted parts of the messages whose direct write did not fail; write interest is on if and only if bytes wait |
| `OutputStream.TakenIsWhatWasWritten` | Net/TcpConnection.cc:80-145 | in every run what the kernel has taken is, write by write, the first `result` bytes of a message sent with nothing waiting or of the bytes that waited |
| `OutputStream.SendWritesAndKeeps` | Net/TcpConnection.cc:80-104 | with nothing waiting a send leaves in the buffer exactly the kept bytes behind the first `result`, none if the write fails, with write interest on if and only if there are any; otherwise it appends what it keeps and writes nothing |
| `OutputStream.WritableTakesTheFirst` | Net/TcpConnection.cc:116-136 | `handleWrite` takes the first `result` bytes of what waits, leaves exactly the others, and keeps write interest if and only if there are any |
| `OutputStream.RemainWraps` | Net/TcpConnection.cc:81-87 | what `send` takes to remain differs from the true rest by a multiple of 2^32 |
| `OutputStream.KeptWholeExactly` | Net/TcpConnection.cc:81-98 | the accepted part is the whole message, whatever the direct write takes, if and only if its size fits an `int` |
| `OutputStream.ShutdownWaitsForTheBytes` | Net/TcpConnection.cc:172-185 | SHUT_WR is issued only after every accepted byte was taken; one that was requested and not issued is about to be queued by its thread, queued, or waits for the buffer |
| `OutputStream.DrainIssuesTheShutdown` | Net/TcpConnection.cc:126-138 | with a shutdown requested, `handleWrite` issues it if and only if it drains the buffer |
| `OutputStream.NothingAfterShutdown` | Net/TcpConnection.cc:80-104 | after SHUT_WR nothing is accepted or taken |
| `OutputStream.SendLosesExactly` | Net/TcpConnection.cc:81-103 | `send` keeps a non-empty message whole if and only if what the direct write leaves fits an `int` and that write did not fail; and exactly when it keeps none of it |
| `OutputStream.AcceptedIsTheSends` | Net/TcpConnection.cc:80-104 | the accepted bytes are the sends in order |
| `OutputStream.StateExactly` | Net/TcpConnection.cc:45-177 | in every run the state follows from the events alone: disconnected if and only if a close came, else disconnecting if and only if a shutdown was asked for after the establishment, else connecting if and only if there was none |
| `TcpConnection.DispatchIsTheMachines` | Net/Channel.cc:51-71 | the dispatch of a connection's handlers changes its standing as the life-cycle machine's dispatch step does |
| `TcpConnection.RoomIsUsed` | Net/Channel.cc:51-71 | a dispatch that reports room in the socket writes, and writes last: the kernel takes the first bytes of what waited, followed by what the message callback sent; without the report it takes none |
| `TcpConnection.TcpConnection.constructor` | Net/TcpConnection.cc:19-43 | a new connection has nothing buffered, sent or shut |
| `TcpConnection.TcpConnection.ConnectEstablished` | Net/TcpConnection.cc:45-50 | connected, reading enabled, channel added |
| `TcpConnection.TcpConnection.Send` | Net/TcpConnection.cc:80-104 | takes the stream machine's send step, leaves in the output buffer what was there or else the kept bytes behind those taken, with write interest while there are any, and leaves the standing of an open connection alone |
| `TcpConnection.TcpConnection.Keep` | Net/TcpConnection.cc:87-103 | the bytes behind those taken, as far as the `int` count of the rest allows, go to the end of the output buffer |
| `TcpConnection.TcpConnection.Buffered` | Net/TcpConnection.cc:99-102 | the rest is appended and write interest is on |
| `TcpConnection.TcpConnection.SendBuffer` | Net/TcpConnection.cc:106-111 | sends and empties the buffer if and only if connected |
| `TcpConnection.TcpConnection.HandleWrite` | Net/TcpConnection.cc:116-145 | takes the stream machine's writable step: the first bytes leave the output buffer, the others stay, and the last one ends write interest and issues a requested shutdown |
| `TcpConnection.TcpConnection.Shutdown` | Net/TcpConnection.cc:172-177 | in the loop's thread, takes the stream machine's shutdown step |
| `TcpConnection.TcpConnection.BeginShutdown` | Net/TcpConnection.cc:173-174 | in another thread, the checked assignment of the state |
| `TcpConnection.TcpConnection.QueueShutdown` | Net/TcpConnection.cc:175-175 | in another thread, the push of the call, later |
| `TcpConnection.TcpConnection.ShutdownInLoop` | Net/TcpConnection.cc:179-185 | shuts the write side exactly when no bytes are being waited for |
| `TcpConnection.TcpConnection.RunShutdownTask` | Net/TcpConnection.cc:179-185 | a queued shutdown takes the machine's step |
| `TcpConnection.TcpConnection.HandleClose` | Net/TcpConnection.cc:148-150 | disconnected with no interest left, and the channel's index changes as in the life-cycle machine |
| `TcpConnection.TcpConnection.SendReplies` | Net/TcpConnection.cc:80-104 | the sends of a message callback are the machine's send steps in order and leave the standing of an open connection alone |
| `TcpConnection.TcpConnection.MessageCallback` | Net/TcpConnection.cc:69-69 | any sends and then perhaps a shutdown, as the composed steps |
| `TcpConnection.TcpConnection.HandleRead` | Net/TcpConnection.cc:63-77 | data runs the message callback, the end of the stream closes, an error does neither |
| `TcpConnection.TcpConnection.HandleInput` | Net/Channel.cc:52-63 | the close and read handlers in their order |
| `TcpConnection.TcpConnection.HandleEvent` | Net/Channel.cc:51-71 | one dispatch is, on the stream, its closes or the message callback's sends and shutdown, then the write; on the standing the machine's dispatch, unless the callback sends after a close |
| `TcpConnection.TcpConnection.ConnectDestroyed` | Net/TcpConnection.cc:53-61 | the channel leaves the poller; the extra close happens exactly for a connected one |
| `TcpConnection.TcpConnection.KernelWatchesPendingOutput` | Net/TcpConnection.cc:97-103 | while the connection is open the kernel watches for writability if and only if bytes wait |
| `Poller.KernelMirrorsChannels` | Net/Epoller.cc:76-140 | for every sequence of operations the kernel's set is {fd -> events} of the added channels, the table holds the added and deleted ones, and no `epoll_ctl` is refused |
| `Poller.MirrorAlways` | Net/Epoller.cc:76-112 | the mirror invariant after every prefix |
| `Poller.InterestBits` | Net/Channel.h:49-63 | reading and writing interest do not disturb each other |
| `Poller.DisablingTwiceAddsAgain` | Net/Epoller.cc:80-89 | disabling a deleted channel adds it again with an empty interest |
| `Poller.Channel.constructor` | Net/Channel.cc:16-18 | a new channel has no interest and is not known to the poller |
| `Poller.Channel.EnableReading` | Net/Channel.h:49-49 | reading on, writing unchanged, and the machine's step on table and kernel |
| `Poller.Channel.DisableReading` | Net/Channel.h:50-50 | reading off, writing unchanged, likewise |
| `Poller.Channel.DisableAll` | Net/Channel.h:51-51 | no interest, likewise |
| `Poller.Channel.DisableWriting` | Net/Channel.h:52-52 | writing off, reading unchanged, likewise |
| `Poller.Channel.EnableWriting` | Net/Channel.h:53-53 | writing on, reading unchanged, likewise |
| `Poller.Channel.Remove` | Net/Channel.cc:43-45 | the channel is new again, and the machine's step |
| `Poller.Epoller.UpdateChannel` | Net/Epoller.cc:76-99 | takes the machine's update step, by adding, modifying or deleting |
| `Poller.Epoller.AddChannel` | Net/Epoller.cc:80-89 | the branch of a new or deleted channel |
| `Poller.Epoller.ChangeChannel` | Net/Epoller.cc:90-98 | the branch of an added channel |
| `Poller.Epoller.RemoveChannel` | Net/Epoller.cc:102-112 | takes the machine's remove step |
| `Poller.Epoller.CtlChannel` | Net/Epoller.cc:117-140 | the effect of one `epoll_ctl`, refused exactly for adding a present or changing an absent descriptor |
| `TimerMachine.EachTimerHasOnePlace` | Timer/TimerQueue.cc:37-43 | with re-entrant adds, every timer is to be inserted, in the set, in the batch or deleted, in exactly one of them; only one-shots that have run are deleted |
| `TimerMachine.HandleReadRunsExactlyTheDue` | Timer/TimerQueue.cc:105-122 | each `HandleRead` removes exactly the timers due at its reading of the clock and runs each once in the order of time and identity, whatever the callbacks add |
| `TimerMachine.RunsAreSpaced` | Timer/TimerQueue.cc:64-73 | two runs of one timer mean it repeats, and they are at least the whole seconds of its interval apart |
| `TimerMachine.PutBackExactly` | Timer/TimerQueue.cc:64-73 | in every run a repeating timer of the batch is put back at exactly the reading of the clock plus the whole seconds of its interval, and a one-shot is deleted; the set is otherwise unchanged |
| `TimerMachine.RepeatsFollowTheInterval` | Timer/TimerQueue.cc:64-125 | in every run within the loop's bounds, two successive runs of a timer are bounded from both sides: the later is due between the whole seconds of the interval and one pass more after the earlier started, and starts within lateness, 100 microseconds, insertion delay and three passes of that |
| `TimerMachine.NoTimerRunsEarly` | Timer/TimerQueue.cc:109-122 | no callback starts before the expiration its timer was collected with |
| `TimerMachine.WaitingTimerIsNotOverdue` | Timer/TimerQueue.cc:37-93 | in every run within the loop's bounds a timer of the set is overdue by at most the sum of lateness, 100 microseconds, insertion delay and pass |
| `TimerMachine.CallbacksStartInTime` | Timer/TimerQueue.cc:37-125 | in every such run every callback starts at most that sum and one more pass after its expiration, and not before it |
| `TimerMachine.LateInsertionsDelay` | Timer/TimerQueue.cc:37-55 | without a bound on insertions a timer can be overdue by any amount although the loop is never late |
| `TimerMachine.KernelTimerNeverOversleeps` | Timer/TimerQueue.cc:37-93 | outside `HandleRead`, with a non-empty set, the descriptor is readable or will be by the larger of the earliest expiration and 100 microseconds after it was set, and never before a timer is due |
| `TimerMachine.DueIsExact` | Timer/TimerQueue.cc:113-113 | the `lower_bound` splits the set exactly at the due timers |
| `TimerMachine.PlacedIsSorted` | Timer/TimerQueue.cc:91-91 | insertion keeps the set ordered |
| `TimerMachine.AddTimeDropsTheFraction` | Base/TimeStamp.cc:20-24 | the added time is the whole seconds of the wait, truncated towards zero |
| `TimerMachine.RunKeepsInv` | Timer/TimerQueue.cc:37-125 | ownership, order, spacing and arming hold after every prefix of every run |
| `TimerQueue.SpecIsExact` | Timer/TimerQueue.cc:57-58 | seconds and nanoseconds passed to the kernel are the delay exactly and never the zero that disarms it |
| `TimerQueue.Timer.constructor` | Timer/Timer.cc:4-6 | a timer repeats if and only if its interval is positive |
| `TimerQueue.Timer.Restart` | Timer/Timer.h:26-28 | the next expiration is the given time plus the whole seconds of the interval |
| `TimerQueue.TimerQueue.constructor` | Timer/TimerQueue.cc:9-16 | the queue starts as the machine's initial state |
| `TimerQueue.TimerQueue.AddTimer` | Timer/TimerQueue.cc:30-34 | a fresh object, as the machine's create step |
| `TimerQueue.TimerQueue.AddTimerInLoop` | Timer/TimerQueue.cc:37-43 | takes the machine's add step, rearming only for a new earliest timer |
| `TimerQueue.TimerQueue.Insert` | Timer/TimerQueue.cc:83-93 | ordered insertion; true if and only if the set was empty or the new time is strictly earliest |
| `TimerQueue.TimerQueue.ResetTimer` | Timer/TimerQueue.cc:45-62 | the kernel timer fires at the expiration, at the earliest 100 microseconds from now |
| `TimerQueue.TimerQueue.ReadFromFd` | Timer/TimerQueue.cc:96-102 | empties a readable descriptor and leaves another alone |
| `TimerQueue.TimerQueue.CollectDue` | Timer/TimerQueue.cc:109-118 | takes the machine's collect step: the batch is the front of the set with exactly the timers due |
| `TimerQueue.TimerQueue.RunNextTimer` | Timer/TimerQueue.cc:120-122 | the callbacks start in the order of the batch |
| `TimerQueue.TimerQueue.ResetActive` | Timer/TimerQueue.cc:65-73 | a repeating timer goes back into the set at the clock reading plus the whole seconds of its interval, and another is deleted |
| `TimerQueue.TimerQueue.RearmEarliest` | Timer/TimerQueue.cc:75-78 | the kernel timer is set for the first of the set |
| `TimerQueue.TimerQueue.ResetLoop` | Timer/TimerQueue.cc:65-73 | the loop treats the whole batch, with its own clock reading in each round |
| `TimerQueue.TimerQueue.ResetTimers` | Timer/TimerQueue.cc:64-80 | loop and rearming together are the machine's steps |
| `IdleReaper.ReapedOnlyWhenSilent` | Http/httpServer.cc:39-50 | the reaper shuts down only with the option on and when every message so far, and the construction, was more than ten seconds ago |
| `IdleReaper.SilentConnectionIsReaped` | Http/httpServer.cc:39-57 | for every schedule of messages, a connection still up gave a sign of life within twenty seconds plus the dispatch delay |
| `IdleReaper.TimersReapSilentConnection` | Http/httpServer.cc:39-57 | with a run of the timer queue within its bounds, the dispatch delay is their sum: a connection still up gave a sign of life within twenty seconds plus lateness, 100 microseconds, insertion delay and pass |
| `IdleReaper.TheBoundIsReached` | Http/httpServer.cc:44-47 | no smaller bound holds, for any delay |
| `IdleReaper.FireDecides` | Http/httpServer.cc:39-50 | a dispatch shuts down exactly a living, connected, timed-out connection and restarts the timer exactly for a living one that is not timed out |
| `HttpServing.AnswersFollowTheStream` | Http/httpServer.cc:22-37 | however the input is cut and whatever the callback decides, the answered requests are the first of the stream, in order, none skipped or repeated |
| `HttpServing.OneAnswerPerMessage` | Http/httpServer.cc:28-36 | a message is worth one answer at most: the first waiting request; pipelined ones stay |
| `HttpServing.AnswersKeepPace` | Http/httpServer.cc:22-37 | after n messages on a connection still up, the answers are the smallest number of requests completed by some first messages plus one for each message after them |
| `HttpServing.NothingWaitsExactly` | Http/httpServer.cc:28-36 | no request waits if and only if no last few messages completed more requests than they are |
| `HttpServing.RefusedExactly` | Http/httpServer.cc:28-31 | a connection that is up answers 400 and shuts down if and only if a complete line stands where a request line should, is none of section 3 of RFC 9112, and is not one on which the parser throws |
| `HttpServing.ClosesExactly` | Http/httpServer.cc:65-69 | for every printed head the last `Connection` header decides, and without one that of the request before: "Close" closes, and HTTP/1.0 closes on everything but "Keep-Alive" |
| `Session.AnswersReachTheKernel` | Http/httpServer.cc:22-79 | in every run of a connection the replies answer the first requests received; bytes taken and waiting are the printed replies if and only if every reply was kept whole, and then what the kernel took is a prefix of them |
| `Session.RequestsFollow` | Http/httpServer.cc:22-37 | answered and waiting requests are those of the bytes received, whatever writes, shutdowns and closes come in between |
| `Session.AtMostOneReply` | Http/httpServer.cc:28-36 | one message callback replies at most once |
| `Session.NothingAfterAClosingReply` | Http/httpServer.cc:28-78 | in every run a reply that closes, a 400 included, is the last one, and the connection was shut down with it |
| `Peer.RepliesReadBack` | Http/httpResponse.cc:20-38 | from the texts of any replies of which only the last closes, one after the other, a reader gets each reply's status, header lines and body |
| `Peer.PeerReadsTheReplies` | Http/httpServer.cc:22-79 | in every run in which every reply was kept whole and all was taken, the peer reads out of the bytes exactly the replies, in order |
| `HttpServer.HttpConnection.constructor` | Net/TcpConnection.cc:19-32 | a fresh parser, an empty buffer, no timer, and the time of construction |
| `HttpServer.HttpConnection.Shutdown` | Net/TcpConnection.cc:172-177 | only a connected one becomes disconnecting |
| `HttpServer.HttpConnection.Refuse` | Http/httpServer.cc:29-30 | `HTTP/1.1 400 Bad Request` with an empty line is sent and a connected connection shut down |
| `HttpServer.HttpConnection.Close` | Net/TcpConnection.cc:148-149 | the connection is disconnected, as the reaper machine's close step |
| `HttpServer.HttpServer.constructor` | Http/httpServer.cc:11-19 | the option is kept |
| `HttpServer.HttpServer.StartTimer` | Net/EventLoop.h:30-34 | the timer is set ten seconds ahead |
| `HttpServer.HttpServer.ConnectionUp` | Http/httpServer.cc:52-62 | the timer starts if and only if the option is on |
| `HttpServer.HttpServer.MessageCallback` | Http/httpServer.cc:22-37 | takes the serving step and the reaper machine's message step; what was given to `send` is the text of the replies |
| `HttpServer.HttpServer.Respond` | Http/httpServer.cc:27-36 | a malformed line gives 400 and a shutdown, a complete head one answer |
| `HttpServer.HttpServer.DealWithRequest` | Http/httpServer.cc:65-79 | the closing decision proposed to the callback, the text of its response given to `send`, and a shutdown exactly if it decides to close |
| `HttpServer.HttpServer.Printed` | Http/httpServer.cc:72-73 | the buffer that is sent holds the text of the response |
| `HttpResponse.AppendToBuffer` | Http/httpResponse.cc:20-38 | appends status line, header lines by the closing flag, blank line and body |
| `HttpResponse.PrintedResponseReadsBack` | Http/httpResponse.cc:20-38 | reading a response's text line by line restores version, status code, message, every header line with the body's length as the number in its own, and the body with what follows, if and only if message and printed body type hold no CRLF |
| `HttpResponse.BadRequestReadsBack` | Http/httpServer.cc:29-29 | the answer to a malformed line reads back as status 400 without header lines or body |
| `HttpServer.HttpServer.HandleIdleConnection` | Http/httpServer.cc:39-50 | takes the reaper machine's fire step |
| `HttpRequest.PrintedLineParses` | Http/httpRequest.cc:23-62 | a printed request line (section 3 of RFC 9112) parses to its method, path, query and version |
| `HttpRequest.ParsedLineIsPrinted` | Http/httpRequest.cc:23-62 | every accepted line is a printed request line with the reported components |
| `HttpRequest.ThrowsExactly` | Http/httpRequest.cc:40-43 | the query assignment throws if and only if the first '?' comes after the second space |
| `HttpRequest.PrintedHeaderParses` | Http/httpRequest.cc:64-70 | a printed field line (section 5 of RFC 9112) stores its name and value |
| `HttpRequest.ParsedHeaderIsPrinted` | Http/httpRequest.cc:64-70 | every line with a colon is a printed field line with the stored name and value |
| `HttpRequest.SkipSpaces` | Http/httpRequest.cc:66-67 | the first position that is not a space, inside the line |
| `HttpRequest.HttpRequest.ParseRequestMethod` | Http/httpRequest.cc:6-21 | exactly four methods are known; another leaves the field alone |
| `HttpRequest.HttpRequest.ParseRequestLine` | Http/httpRequest.cc:23-62 | the assignments, in their order, leave what the specification says, also on failure |
| `HttpRequest.HttpRequest.ParseRest` | Http/httpRequest.cc:35-61 | the part behind the method |
| `HttpRequest.HttpRequest.AssignTarget` | Http/httpRequest.cc:40-46 | path and query of the target, or the reversed range that throws |
| `HttpRequest.HttpRequest.AssignVersion` | Http/httpRequest.cc:49-59 | the version, unknown exactly when the test fails |
| `HttpRequest.HttpRequest.ParseHeaders` | Http/httpRequest.cc:64-70 | the scanning loop stops at the CR at the latest and stores the specified pair |
| `HttpContent.FindCrlf` | Net/Buffer.h:77-82 | the first CRLF at or after a position, or the end |
| `HttpContent.FindCRLF` | Net/Buffer.h:77-82 | the search over the readable bytes finds that one |
| `HttpContent.FeedSplit` | Http/httpContent.cc:16-63 | parsing more bytes after a pass is parsing the concatenation |
| `HttpContent.ChunkingDoesNotMatter` | Http/httpContent.cc:16-63 | for any split into reads: the same state, request and unread bytes as after one parse of the whole |
| `HttpContent.NoCompleteLineIsLeft` | Http/httpContent.cc:20-60 | a pass that wants more leaves a suffix without a CRLF |
| `HttpContent.HeadRoundTrip` | Http/httpContent.cc:16-63 | printing a head and parsing it restores every component and leaves what follows unread |
| `HttpContent.CompletedRequestIsAHead` | Http/httpContent.cc:16-63 | input completes a request only if it begins with such a printed head |
| `HttpContent.LastDuplicateWins` | Http/httpRequest.cc:68-68 | of equal field names the last value stays |
| `HttpContent.HttpContent.constructor` | Http/httpContent.cc:9-11 | parsing starts at the request line |
| `HttpContent.HttpContent.TakeRequestLine` | Http/httpContent.cc:21-33 | the branch of the request line |
| `HttpContent.HttpContent.TakeHeaderLine` | Http/httpContent.cc:35-45 | the branch of a header line |
| `HttpContent.HttpContent.TakeLine` | Http/httpContent.cc:21-49 | the branch of the current state reads the line |
| `HttpContent.HttpContent.ParsePass` | Http/httpContent.cc:20-60 | one pass consumes one complete line, or nothing |
| `HttpContent.HttpContent.ParseContent` | Http/httpContent.cc:16-63 | the loop ends and leaves what the specification says in parser and buffer |
| `HttpContent.HttpContent.ResetContentState` | Http/httpContent.h:20-22 | only the state goes back |
| `Buffer.Buffer.constructor` | Net/Buffer.h:33-37 | empty, with the reserved 8 bytes in front |
| `Buffer.Buffer.ReadableBytes` | Net/Buffer.h:40-42 | the length of the readable bytes |
| `Buffer.Buffer.Retrieve` | Net/Buffer.h:91-97 | dequeues, and resets both indices when all is taken |
| `Buffer.Buffer.RetrieveAll` | Net/Buffer.h:100-102 | empties the queue |
| `Buffer.Buffer.RetrieveUntilIdx` | Net/Buffer.h:85-88 | moves the read position to any index up to the write position: forwards it dequeues, backwards bytes become readable again, and the buffer stays well formed exactly outside the reserved space |
| `Buffer.Buffer.RetrieveAsString` | Net/Buffer.h:70-75 | returns exactly what it dequeues |
| `Buffer.Buffer.MakeSpace` | Net/Buffer.h:152-165 | the overlapping copy or the larger array keeps the readable bytes, and bounds the growth |
| `Buffer.Buffer.EnsureWriteableBytes` | Net/Buffer.h:105-109 | room is there, readable bytes kept |
| `Buffer.Buffer.Append` | Net/Buffer.h:112-116 | enqueues; storage stays within the larger of its initial size and 8 plus twice the peak |
| `Buffer.Buffer.Store` | Net/Buffer.h:114-114 | the copy lands behind the readable bytes |
| `Buffer.Buffer.ReadFd` | Net/Buffer.cc:17-47 | the two-area read enqueues the whole input |
| `Codec.DecodeIsExact` | Examples/chat/codec.h:22-50 | decoding yields messages and a remainder if and only if the input is their encodings, all short, and a remainder that is not ready |
| `Codec.ChunkingDoesNotMatter` | Examples/chat/codec.h:22-50 | any chunking delivers what the whole input would |
| `Codec.RoundTrip` | Examples/chat/codec.h:22-62 | any chunking of the encodings delivers exactly the messages with nothing left over |
| `Codec.EveryPrefix` | Examples/chat/codec.h:26-49 | at every point a prefix is delivered and less than one frame, its beginning, is undecoded |
| `Codec.RoundTripLimit` | Examples/chat/codec.h:32-37 | the round trip holds if and only if the message has at most 65536 bytes |
| `Codec.InvalidExactly` | Examples/chat/codec.h:32-37 | a length is refused if and only if it exceeds 65536 as an unsigned number, which includes those that read as negative |
| `Codec.HeaderOfLength` | Examples/chat/codec.h:30-31 | byte order conversion is undone by its inverse |
| `Codec.LengthHeaderCode.constructor` | Examples/chat/codec.h:17-18 | nothing delivered |
| `Codec.LengthHeaderCode.DeliverFrame` | Examples/chat/codec.h:38-44 | one frame is taken from the buffer and its body delivered |
| `Codec.LengthHeaderCode.OnMessage` | Examples/chat/codec.h:22-50 | the loop delivers and leaves exactly what decoding specifies, and shuts down on an invalid length |
| `Codec.LengthHeaderCode.Send` | Examples/chat/codec.h:53-62 | the frame is the encoding |
| `Cache.HoldsAllOrTheLast` | Proxy/Proxy.cc:181-199 | while the bodies ever written fit an `int`: the list holds every object written, newest first, while they fit the limit, and afterwards the last one alone |
| `Cache.GrowsAfterTheWrap` | Proxy/Proxy.cc:183-198 | beyond that the counter is negative and nothing is evicted |
| `Cache.NewestFirst` | Proxy/Proxy.cc:193-197 | for any counter, the list holds the last objects written, newest first |
| `Cache.CachedBytesAreBounded` | Proxy/Proxy.cc:181-199 | cached body bytes never exceed MAX_CACHE_SIZE for objects within MAX_OBJECT_SIZE while the bodies ever written stay within the safe total |
| `Cache.OverfullExceeds` | Proxy/Proxy.cc:183-198 | a history one byte beyond the safe total exceeds the limit |
| `Cache.BoundHoldsExactly` | Proxy/Proxy.cc:181-199 | all histories up to a total keep the bound if and only if the total is at most the safe one |
| `Cache.LookupFindsTheNewest` | Proxy/Proxy.cc:155-164 | a lookup that finds an object finds the match written last |
| `Cache.LookupMissesNothing` | Proxy/Proxy.cc:155-164 | while all bodies fit, a lookup fails if and only if the URI was never written |
| `Cache.Cache.constructor` | Proxy/Cache.cc:5-24 | two linked sentinels and nothing between |
| `Cache.Cache.EvictLast` | Proxy/Proxy.cc:183-191 | unlinks the last object and keeps the list well formed |
| `Cache.Cache.PushFront` | Proxy/Proxy.cc:193-197 | links the object behind the head |
| `Cache.Cache.WriteToCache` | Proxy/Proxy.cc:181-199 | for any counter, terminates with the object followed by the old list, or by nothing if the 32-bit sum exceeds the limit |
| `Cache.Cache.ReadItem` | Proxy/Proxy.cc:155-164 | the walk returns the first match from the front, or null |
| `Cache.CString` | Proxy/Proxy.cc:160-160 | a C string ends at the first NUL |
| `Proxy.ForwardedRequestParsesBack` | Proxy/Proxy.cc:244-248 | the server reads the forwarded GET as the same path and version with nothing left over if and only if the path holds no NUL, and refuses it otherwise |

## Left out

- AsyncLogging.AsyncLogging: buffers are held by value; that a moved-from pointer and a buffer object are distinct things is not captured, since every `unique_ptr` has one holder.
- AsyncLogging.AsyncLogging.Start: the latch, which makes `start` return only when the writer runs.
- AsyncLogging.AsyncLogging.Stop: the notification and the join of the writer, which is any later schedule up to its exit; delivery of what is appended after the writer's last swap is not claimed, because the code does not write it.
- LogStream.LogBuffer: cookies, floating-point and pointer output, and the decoration of log lines.
- EventLoop.EventLoop.RunInLoop: the owner's direct call is reported and not run, since functors are numbers.
- EventLoop.EventLoop.Iterate: no other thread acts and no user code quits during the iteration; the machine's theorems cover those that do.
- EventLoop.EventLoop: functors are numbers; what they do is whatever events happen while one is running. The 5-second timeout of `poll` is any return of `poll` without the eventfd.
- Lifecycle.RunKeepsInv: one main loop and one IO loop; with several IO loops each connection sees one of them. A server whose main loop is also the IO loop runs `removeConnectionInLoop` directly inside the dispatch and is not modelled.
- Lifecycle.OwnedWhileInUse: a message callback may shut its connection down but does not send on a connection that is closed already, which would put its channel back into the poller; and `shutdown` is called by the main loop's thread or inside the IO loop, not by a third thread.
- TcpServer.TcpServer.NewConnection: the numbers stop at the largest 32-bit integer, where the source's counter overflows.
- TcpConnection.TcpConnection.ConnectEstablished: requires a connecting connection; the source calls it once for each.
- TcpConnection.TcpConnection.HandleEvent: requires an open connection, which `Lifecycle.OwnedWhileInUse` and the invariant behind it give for every connection in the active list.
- OutputStream.SendLosesExactly: `int` differences that overflow wrap; the assertion at line 96, which can fail only then, is not evaluated, as in the release build.
- TcpConnection.TcpConnection.Shutdown: the check and the assignment of the state are one step.
- TcpConnection.TcpConnection: `shutdownRead`, the high-water mark, `handleError` and the connection callbacks' own effects are not modelled.
- Poller.Channel: event masks are their low byte; `tie` and the callbacks that are never called are not modelled.
- TimerQueue.TimerQueue: one clock, where the source mixes the wall clock and the monotonic clock; times and seconds are unbounded; a deleted timer's address is not reused; ties in time are broken by any fixed order of identities.
- TimerQueue.TimerQueue.ResetTimers: `HandleRead` is cut into its parts, because callbacks and time come between them.
- IdleReaper.SilentConnectionIsReaped: how late a due timer is dispatched is the parameter `delay`; `IdleReaper.TimersReapSilentConnection` bounds it for a timer in the set outside `HandleRead`; the connection's timestamp, written by the IO thread and read by the main thread, is accessed atomically.
- HttpServer.HttpConnection.Shutdown: only the state; the socket is `TcpConnection.Shutdown`'s part.
- HttpServer.HttpConnection.Close: only the state and the reaper's step; the channel is `TcpConnection.HandleClose`'s part.
- HttpServer.HttpServer.constructor: the callbacks and the threads that it sets up.
- HttpServer.HttpServer.MessageCallback: what is given to `send` is recorded; `TcpConnection.Send` takes it on, and `Session.AnswersReachTheKernel` says what becomes of it.
- Peer.PeerReadsTheReplies: the characters of a reply are bytes, as `Narrow` says; the reader takes the length from the header name that the source prints, `Content_Length`, which is not the `Content-Length` of RFC 9112.
- HttpServer.HttpServer.Respond: likewise.
- HttpServer.HttpServer.DealWithRequest: likewise; a status code that the callback leaves unset has no value in the source.
- HttpRequest.HttpRequest: the overloads with `HttpRequestParseState&`, which are unused; message bodies.
- HttpContent.HttpContent.ResetContentState: headers and query of the previous request stay, as in the code, so the head round trip speaks of a fresh request where both matter.
- Buffer.Buffer.ReadFd: the error path, where the source stores a negative result in an unsigned variable and returns nothing; the model returns the number of bytes read.
- Codec.LengthHeaderCode: the muduo buffer it uses is taken to be the byte queue of `Buffer.dfy`, with the header put in front.
- Cache.Cache.WriteToCache: a sum that overflows wraps, as it does on the machines the server runs on; freed objects are simply no longer in the list.
- Cache.Cache.ReadItem: the reader and writer semaphores, which exclude nothing since the mutex starts at 5 and a hit returns without releasing.
- Proxy.ForwardedRequestParsesBack: the proxy's copy of the request-line parser is taken to be that of Http/httpRequest.cc restricted to GET; the tunnel, the responses and muduo's client are not modelled.
- Thread, CountDownLatch, the thread pool's round-robin, sockets, addresses, HTML pages, webbench and scripts would only add easy members.
