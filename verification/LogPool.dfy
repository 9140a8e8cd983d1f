/** The asynchronous logger's buffer pool as a state machine over every schedule of producers and writer.

    Log/asynclogging.cc moves buffers between the shared fields, the writer's local variables and the
    vector being written. Here a buffer is the sequence of messages it holds, so "a message is stored
    whole" is part of the state's shape, and the class in AsyncLogging.dfy ties it to bytes. */
module LogPool {
  import opened Options
  import opened Sequences
  import LogStream

  type Message = string
  type Store = seq<Message>

  const CAPACITY: nat := LogStream.K_LARGE_BUFFER

  /** The bytes of the first `n` messages of a buffer. */
  function BytesTo(b: Store, n: nat): string
    requires n <= |b|
  {
    if n == 0 then [] else BytesTo(b, n - 1) + b[n - 1]
  }

  function Bytes(b: Store): string {
    BytesTo(b, |b|)
  }

  /** The messages of the first `n` buffers of a vector, in order. */
  function FlatTo(bs: seq<Store>, n: nat): seq<Message>
    requires n <= |bs|
  {
    if n == 0 then [] else FlatTo(bs, n - 1) + bs[n - 1]
  }

  function Flat(bs: seq<Store>): seq<Message> {
    FlatTo(bs, |bs|)
  }

  /** The vectors that the writer has taken from the producers, oldest first. */
  datatype History = Start | Then(earlier: History, batch: seq<Store>)

  /** Where the writer thread stands: not started, at the loop test, waiting for the lock, or before one of
      the unlocked actions of an iteration. */
  datatype Pc = Unstarted | LoopTest | Lock | Trim | Write(done: nat) | Shrink | Refill1 | Refill2 | Clear | Exited

  /** `current`, `next` and `buffers` are shared; `spare1`, `spare2` and `toWrite` are the writer's own.
      `accepted` and `batches` record history: every message stored by `append`, in lock order, and
      every vector that the writer took. */
  datatype Pool = Pool(
    running: bool,
    current: Option<Store>, next: Option<Store>, buffers: seq<Store>,
    pc: Pc, spare1: Option<Store>, spare2: Option<Store>, toWrite: seq<Store>,
    file: seq<Message>, accepted: seq<Message>, batches: History)

  const INITIAL := Pool(false, Some([]), Some([]), [], Unstarted, Some([]), Some([]), [], [], [], Start)

  datatype Event =
    | Append(msg: Message) | Begin | Stop
    | Test | Swap | DropExcess | WriteOne | Resize | TakeFirst | TakeSecond | Finish

  /** `Fault` is a dereference of a null buffer or `back()` on an empty vector. */
  datatype Outcome = Ok(pool: Pool) | Fault

  function Avail(b: Store): int {
    CAPACITY - |Bytes(b)|
  }

  /** `LogBuffer::append`: all or nothing. */
  function Put(b: Store, msg: Message): Store {
    if Avail(b) >= |msg| then b + [msg] else b
  }

  function Record(log: seq<Message>, b: Store, msg: Message): seq<Message> {
    if Avail(b) >= |msg| then log + [msg] else log
  }

  /** One whole locked `append`. */
  function AppendStep(p: Pool, msg: Message): Outcome {
    if p.current.None? then Fault
    else if Avail(p.current.value) != 0 then
      Ok(p.(current := Some(Put(p.current.value, msg)),
            accepted := Record(p.accepted, p.current.value, msg)))
    else
      var blank := if p.next.Some? then p.next.value else [];
      Ok(p.(buffers := p.buffers + [p.current.value], next := None,
            current := Some(Put(blank, msg)), accepted := Record(p.accepted, blank, msg)))
  }

  /** The writer's critical section, from the end of the timed wait to the unlock. */
  function SwapStep(p: Pool): Outcome {
    if p.current.None? then Fault
    else
      var full := p.buffers + [p.current.value];
      var refill := p.next.None?;
      Ok(p.(pc := Trim, buffers := p.toWrite, current := p.spare1, spare1 := None,
            toWrite := full, batches := Then(p.batches, full),
            next := if refill then p.spare2 else p.next,
            spare2 := if refill then None else p.spare2))
  }

  /** What the over-16 rule leaves of a vector. */
  function Kept(b: seq<Store>): seq<Store> {
    if |b| > 16 then b[..2] else b
  }

  function Prefix(b: seq<Store>, n: nat): seq<Store> {
    if |b| > n then b[..n] else b
  }

  /** Any event at any time; an event that the writer's position does not allow changes nothing. */
  function Step(p: Pool, e: Event): Outcome {
    match e
    case Append(msg) => AppendStep(p, msg)
    case Begin => if p.pc != Unstarted then Ok(p) else Ok(p.(running := true, pc := LoopTest))
    case Stop => Ok(p.(running := false))
    case Test => if p.pc != LoopTest then Ok(p) else Ok(p.(pc := if p.running then Lock else Exited))
    case Swap => if p.pc != Lock then Ok(p) else SwapStep(p)
    case DropExcess => if p.pc != Trim then Ok(p) else Ok(p.(toWrite := Kept(p.toWrite), pc := Write(0)))
    case WriteOne =>
      if !p.pc.Write? then Ok(p)
      else if p.pc.done >= |p.toWrite| then Ok(p.(pc := Shrink))
      else Ok(p.(file := p.file + p.toWrite[p.pc.done], pc := Write(p.pc.done + 1)))
    case Resize => if p.pc != Shrink then Ok(p) else Ok(p.(toWrite := Prefix(p.toWrite, 2), pc := Refill1))
    case TakeFirst =>
      if p.pc != Refill1 then Ok(p)
      else if p.spare1.Some? then Ok(p.(pc := Refill2))
      else if p.toWrite == [] then Fault
      else Ok(p.(spare1 := Some([]), toWrite := p.toWrite[..|p.toWrite| - 1], pc := Refill2))
    case TakeSecond =>
      if p.pc != Refill2 then Ok(p)
      else if p.spare2.Some? then Ok(p.(pc := Clear))
      else if p.toWrite == [] then Fault
      else Ok(p.(spare2 := Some([]), toWrite := p.toWrite[..|p.toWrite| - 1], pc := Clear))
    case Finish => if p.pc != Clear then Ok(p) else Ok(p.(toWrite := [], pc := LoopTest))
  }

  /** The pool after the first `n` events of a schedule. */
  function RunTo(es: seq<Event>, n: nat): Outcome
    requires n <= |es|
  {
    if n == 0 then Ok(INITIAL)
    else if RunTo(es, n - 1).Fault? then Fault
    else Step(RunTo(es, n - 1).pool, es[n - 1])
  }

  /** The pool after any schedule at all. */
  function Run(es: seq<Event>): Outcome {
    RunTo(es, |es|)
  }

  // ---------------------------------------------------------------- the pool never runs dry

  ghost predicate Empty(b: Option<Store>) {
    b.Some? ==> b.value == []
  }

  /** Null buffers appear only where enough full buffers are at hand to replace them. */
  ghost predicate Stocked(p: Pool) {
    && p.current.Some? && Empty(p.next) && Empty(p.spare1) && Empty(p.spare2)
    && (p.next.None? ==> |p.buffers| > 0)
    && match p.pc
       case Trim =>
         p.spare1.None? && |p.toWrite| >= 1 && (p.spare2.None? ==> |p.toWrite| >= 2)
       case Write(done) =>
         p.spare1.None? && |p.toWrite| >= 1 && (p.spare2.None? ==> |p.toWrite| >= 2) && done <= |p.toWrite|
       case Shrink =>
         p.spare1.None? && |p.toWrite| >= 1 && (p.spare2.None? ==> |p.toWrite| >= 2)
       case Refill1 =>
         p.spare1.None? && 1 <= |p.toWrite| <= 2 && (p.spare2.None? ==> |p.toWrite| >= 2)
       case Refill2 =>
         p.spare1.Some? && |p.toWrite| <= 1 && (p.spare2.None? ==> |p.toWrite| >= 1)
       case Clear => p.spare1.Some? && p.spare2.Some? && |p.toWrite| <= 1
       case _ => p.spare1.Some? && p.spare2.Some? && p.toWrite == []
  }

  // ---------------------------------------------------------------- nothing lost, nothing twice

  /** The batches whose buffers are all in the file. */
  function Finished(p: Pool): History {
    if (p.pc.Trim? || p.pc.Write?) && p.batches.Then? then p.batches.earlier else p.batches
  }

  function FlatAll(h: History): seq<Message> {
    match h
    case Start => []
    case Then(earlier, batch) => FlatAll(earlier) + Flat(batch)
  }

  /** How many buffers of a batch are written: the first two if there are more than 16. */
  function Surviving(count: nat): nat {
    if count > 16 then 2 else count
  }

  /** The same, of each batch the first buffers only. */
  function FlatFirst(h: History): seq<Message> {
    match h
    case Start => []
    case Then(earlier, batch) => FlatFirst(earlier) + FlatTo(batch, Surviving(|batch|))
  }

  /** What the current batch has put in the file so far. */
  function Written(p: Pool): seq<Message> {
    if p.pc.Write? && p.pc.done <= |p.toWrite| then FlatTo(p.toWrite, p.pc.done) else []
  }

  ghost predicate Conserved(p: Pool) {
    && p.current.Some?
    && (p.pc.Trim? ==> p.batches.Then? && p.toWrite == p.batches.batch)
    && (p.pc.Write? ==> p.batches.Then? && p.toWrite == Kept(p.batches.batch) && p.pc.done <= |p.toWrite|)
    && p.accepted == FlatAll(p.batches) + Flat(p.buffers) + p.current.value
    && p.file == FlatFirst(Finished(p)) + Written(p)
  }

  ghost predicate Fits(b: Store) {
    |Bytes(b)| <= CAPACITY
  }

  ghost predicate Inv(p: Pool) {
    Stocked(p) && Conserved(p) && Fits(p.current.value)
  }

  lemma {:induction false} FlatToPrefix(bs: seq<Store>, cs: seq<Store>, n: nat)
    requires n <= |bs| <= |cs| && forall i | 0 <= i < n :: bs[i] == cs[i]
    ensures FlatTo(bs, n) == FlatTo(cs, n)
  {
    if n > 0 {
      FlatToPrefix(bs, cs, n - 1);
    }
  }

  lemma FlatSnoc(bs: seq<Store>, b: Store)
    ensures Flat(bs + [b]) == Flat(bs) + b
  {
    FlatToPrefix(bs, bs + [b], |bs|);
  }

  lemma {:induction false} BytesToPrefix(b: Store, c: Store, n: nat)
    requires n <= |b| <= |c| && forall i | 0 <= i < n :: b[i] == c[i]
    ensures BytesTo(b, n) == BytesTo(c, n)
  {
    if n > 0 {
      BytesToPrefix(b, c, n - 1);
    }
  }

  lemma BytesSnoc(b: Store, msg: Message)
    ensures Bytes(b + [msg]) == Bytes(b) + msg
  {
    BytesToPrefix(b, b + [msg], |b|);
  }

  lemma PutFits(b: Store, msg: Message)
    requires Fits(b)
    ensures Fits(Put(b, msg))
  {
    BytesSnoc(b, msg);
  }

  lemma AppendIsConserved(p: Pool, msg: Message)
    requires Inv(p)
    ensures AppendStep(p, msg).Ok? && Conserved(AppendStep(p, msg).pool)
  {
    var cur := p.current.value;
    if Avail(cur) != 0 {
      Assoc(FlatAll(p.batches) + Flat(p.buffers), cur, [msg]);
    } else {
      FlatSnoc(p.buffers, cur);
      Assoc(FlatAll(p.batches), Flat(p.buffers), cur);
    }
  }

  lemma SwapIsConserved(p: Pool)
    requires Inv(p) && p.pc == Lock
    ensures SwapStep(p).Ok? && Conserved(SwapStep(p).pool)
  {
    var full := p.buffers + [p.current.value];
    FlatSnoc(p.buffers, p.current.value);
    Assoc(FlatAll(p.batches), Flat(p.buffers), p.current.value);
  }

  /** What the over-16 rule leaves are the first buffers. */
  lemma KeptIsFirst(b: seq<Store>)
    ensures |Kept(b)| == Surviving(|b|) && Flat(Kept(b)) == FlatTo(b, Surviving(|b|))
  {
    FlatToPrefix(Kept(b), b, |Kept(b)|);
  }

  lemma WriteKeepsConserved(p: Pool)
    requires Conserved(p) && p.pc.Write?
    ensures Step(p, WriteOne).Ok? && Conserved(Step(p, WriteOne).pool)
  {
    KeptIsFirst(p.batches.batch);
  }

  /** Every step of every thread is safe and keeps the pool stocked. */
  lemma StepStaysStocked(p: Pool, e: Event)
    requires Stocked(p)
    ensures Step(p, e).Ok? && Stocked(Step(p, e).pool)
  {
    match e {
      case Append(_) => assert |p.buffers + [p.current.value]| > 0;
      case Swap =>
      case _ =>
    }
  }

  lemma StepFits(p: Pool, e: Event)
    requires Stocked(p) && Fits(p.current.value)
    ensures Step(p, e).Ok? && Step(p, e).pool.current.Some? && Fits(Step(p, e).pool.current.value)
  {
    StepStaysStocked(p, e);
    if e.Append? {
      PutFits(p.current.value, e.msg);
      PutFits([], e.msg);
    }
  }

  lemma StepConserves(p: Pool, e: Event)
    requires Inv(p)
    ensures Step(p, e).Ok? && Conserved(Step(p, e).pool)
  {
    match e {
      case Append(msg) => AppendIsConserved(p, msg);
      case Swap => if p.pc == Lock { SwapIsConserved(p); }
      case WriteOne => if p.pc.Write? { WriteKeepsConserved(p); }
      case _ =>
    }
  }

  lemma {:induction false} RunKeepsInv(es: seq<Event>, n: nat)
    requires n <= |es|
    ensures RunTo(es, n).Ok? && Inv(RunTo(es, n).pool)
  {
    if n > 0 {
      RunKeepsInv(es, n - 1);
      var before, e := RunTo(es, n - 1).pool, es[n - 1];
      StepStaysStocked(before, e);
      StepFits(before, e);
      StepConserves(before, e);
    }
  }

  /** The pools of all runs. */
  ghost predicate Reachable(p: Pool) {
    exists es :: Run(es) == Ok(p)
  }

  lemma {:induction false} RunToPrefix(es: seq<Event>, longer: seq<Event>, n: nat)
    requires n <= |es| <= |longer| && forall i | 0 <= i < n :: es[i] == longer[i]
    ensures RunTo(es, n) == RunTo(longer, n)
  {
    if n > 0 {
      RunToPrefix(es, longer, n - 1);
    }
  }

  lemma RunSnoc(es: seq<Event>, e: Event)
    requires Run(es).Ok?
    ensures Run(es + [e]) == Step(Run(es).pool, e)
  {
    RunToPrefix(es, es + [e], |es|);
  }

  lemma ReachableStep(p: Pool, e: Event)
    requires Reachable(p)
    ensures Step(p, e).Ok? && Reachable(Step(p, e).pool)
  {
    var es :| Run(es) == Ok(p);
    hide Step, Inv;
    RunSnoc(es, e);
    RunKeepsInv(es + [e], |es + [e]|);
    assert Run(es + [e]) == Ok(Step(p, e).pool);
  }

  lemma ReachableIsStocked(p: Pool)
    requires Reachable(p)
    ensures Stocked(p)
  {
    var es :| Run(es) == Ok(p);
    RunKeepsInv(es, |es|);
  }

  // ---------------------------------------------------------------- main results

  /** In no schedule does the writer take `back()` of an empty vector or anyone dereference a null
      buffer; both spares are present, empty, at every loop test. */
  lemma PoolNeverRunsDry(es: seq<Event>)
    ensures Run(es).Ok?
    ensures var p := Run(es).pool;
            && (p.next.None? ==> p.buffers != [])
            && (p.pc == Unstarted || p.pc == LoopTest ==>
                  p.spare1 == Some([]) && p.spare2 == Some([]) && p.toWrite == [])
            && (p.pc == Refill1 && p.spare1.None? ==> p.toWrite != [])
            && (p.pc == Refill2 && p.spare2.None? ==> p.toWrite != [])
            && Empty(p.next)
  {
    RunKeepsInv(es, |es|);
  }

  /** In every schedule the accepted messages are, in lock order, those taken in batches, those queued
      and those in the current buffer, and the file holds exactly the messages of every finished batch of at most
      16 buffers and of the first two buffers of every longer one, with what the current batch has written. */
  lemma MessagesAreConserved(es: seq<Event>)
    ensures Run(es).Ok? && Run(es).pool.current.Some?
    ensures var p := Run(es).pool;
            && p.accepted == FlatAll(p.batches) + Flat(p.buffers) + p.current.value
            && p.file == FlatFirst(Finished(p)) + Written(p)
            && (p.pc.Write? ==>
                  && p.batches.Then? && p.pc.done <= Surviving(|p.batches.batch|)
                  && Written(p) == FlatTo(p.batches.batch, p.pc.done))
  {
    RunKeepsInv(es, |es|);
    var p := Run(es).pool;
    if p.pc.Write? {
      KeptIsFirst(p.batches.batch);
      FlatToPrefix(p.toWrite, p.batches.batch, p.pc.done);
    }
  }

  /** The `Begin` at `i` starts the writer. */
  ghost predicate Begins(es: seq<Event>, i: nat)
    requires i < |es|
  {
    es[i] == Begin && !Begun(es, i)
  }

  ghost predicate Begun(es: seq<Event>, n: nat)
    requires n <= |es|
  {
    exists i :: 0 <= i < n && es[i] == Begin
  }

  /** It does, and no `Stop` came after it. */
  ghost predicate NotStopped(es: seq<Event>, n: nat)
    requires n <= |es|
  {
    exists i :: 0 <= i < n && Begins(es, i) && forall j | i < j < n :: es[j] != Stop
  }

  lemma LastEvent(es: seq<Event>, n: nat)
    requires 0 < n <= |es|
    ensures Begun(es, n) <==> Begun(es, n - 1) || es[n - 1] == Begin
    ensures NotStopped(es, n) <==> Begins(es, n - 1) || (NotStopped(es, n - 1) && es[n - 1] != Stop)
  {
    if NotStopped(es, n - 1) && es[n - 1] != Stop {
      var i :| 0 <= i < n - 1 && Begins(es, i) && forall j | i < j < n - 1 :: es[j] != Stop;
      assert Begins(es, i) && forall j | i < j < n :: es[j] != Stop;
    }
    if NotStopped(es, n) && !Begins(es, n - 1) {
      var i :| 0 <= i < n && Begins(es, i) && forall j | i < j < n :: es[j] != Stop;
      assert i < n - 1 && Begins(es, i);
    }
  }

  lemma StepRuns(p: Pool, e: Event)
    requires Step(p, e).Ok?
    ensures var q := Step(p, e).pool;
            && (q.pc == Unstarted <==> p.pc == Unstarted && e != Begin)
            && (q.running <==> (p.running && e != Stop) || (p.pc == Unstarted && e == Begin))
            && (e == Test && p.pc == LoopTest ==> q.pc == if p.running then Lock else Exited)
            && (q.pc == Exited <==> p.pc == Exited || (e == Test && p.pc == LoopTest && !p.running))
  {
  }

  /** The logger runs exactly from its first start to the next stop; and the writer's loop test goes on to the lock
      exactly while it runs. */
  lemma {:induction false} RunningExactly(es: seq<Event>, n: nat)
    requires n <= |es|
    ensures RunTo(es, n).Ok?
    ensures RunTo(es, n).pool.running <==> NotStopped(es, n)
    ensures RunTo(es, n).pool.pc == Unstarted <==> !Begun(es, n)
    ensures RunTo(es, n).pool.pc == LoopTest ==>
              Step(RunTo(es, n).pool, Test) == Ok(RunTo(es, n).pool.(pc := if NotStopped(es, n) then Lock else Exited))
  {
    RunKeepsInv(es, n);
    if n > 0 {
      RunningExactly(es, n - 1);
      RunKeepsInv(es, n - 1);
      LastEvent(es, n);
      StepRuns(RunTo(es, n - 1).pool, es[n - 1]);
    }
  }

  /** The over-16 rule never fired. */
  ghost predicate NoOverrun(h: History) {
    h.Then? ==> |h.batch| <= 16 && NoOverrun(h.earlier)
  }

  lemma {:induction false} KeptIsAll(h: History)
    requires NoOverrun(h)
    ensures FlatFirst(h) == FlatAll(h)
  {
    if h.Then? {
      KeptIsAll(h.earlier);
    }
  }

  /** The messages from buffer `n` on. */
  function FlatFrom(bs: seq<Store>, n: nat): seq<Message>
    requires n <= |bs|
    decreases |bs| - n
  {
    if n == |bs| then [] else bs[n] + FlatFrom(bs, n + 1)
  }

  lemma {:induction false} FlatSplit(bs: seq<Store>, n: nat)
    requires n <= |bs|
    ensures FlatTo(bs, n) + FlatFrom(bs, n) == Flat(bs)
    decreases |bs| - n
  {
    if n < |bs| {
      FlatSplit(bs, n + 1);
      Assoc(FlatTo(bs, n), bs[n], FlatFrom(bs, n + 1));
    }
  }

  /** What the current batch still has to put in the file. */
  function Unwritten(p: Pool): seq<Message> {
    match p.pc
    case Trim => Flat(p.toWrite)
    case Write(done) => if done <= |p.toWrite| then FlatFrom(p.toWrite, done) else []
    case _ => []
  }

  // ---------------------------------------------------------------- exactly when messages are lost

  ghost predicate AllHold(bs: seq<Store>, n: nat)
    requires n <= |bs|
  {
    forall i | 0 <= i < n :: |bs[i]| > 0
  }

  /** Every buffer of a batch but the last was full when it was queued. */
  ghost predicate BatchesHold(h: History) {
    h.Then? ==> |h.batch| > 0 && AllHold(h.batch, |h.batch| - 1) && BatchesHold(h.earlier)
  }

  ghost predicate Holding(p: Pool) {
    AllHold(p.buffers, |p.buffers|) && BatchesHold(p.batches)
  }

  lemma StepKeepsHolding(p: Pool, e: Event)
    requires Inv(p) && Holding(p)
    ensures Step(p, e).Ok? && Holding(Step(p, e).pool)
  {
    StepStaysStocked(p, e);
    if e.Append? && Avail(p.current.value) == 0 {
      assert p.current.value != [];
    }
  }

  lemma EmptyHolds()
    ensures Holding(INITIAL)
  {
  }

  lemma {:induction false} RunKeepsHolding(es: seq<Event>, n: nat)
    requires n <= |es|
    ensures RunTo(es, n).Ok? && Holding(RunTo(es, n).pool)
  {
    hide Holding, Inv;
    if n > 0 {
      RunKeepsHolding(es, n - 1);
      RunKeepsInv(es, n - 1);
      StepKeepsHolding(RunTo(es, n - 1).pool, es[n - 1]);
    } else {
      EmptyHolds();
    }
  }

  /** The batches to which the over-16 rule was applied: the current one not before its turn. */
  function Trimmed(p: Pool): History {
    if p.pc.Trim? && p.batches.Then? then p.batches.earlier else p.batches
  }

  lemma {:induction false} FlatToGrows(bs: seq<Store>, m: nat, n: nat)
    requires m <= n <= |bs|
    ensures |FlatTo(bs, m)| <= |FlatTo(bs, n)|
    ensures m < n && |bs[n - 1]| > 0 ==> |FlatTo(bs, m)| < |FlatTo(bs, n)|
  {
    if m < n {
      FlatToGrows(bs, m, n - 1);
    }
  }

  lemma KeptIsShorter(b: seq<Store>)
    requires |b| > 0 && AllHold(b, |b| - 1)
    ensures |FlatTo(b, Surviving(|b|))| <= |Flat(b)|
    ensures |b| > 16 ==> |FlatTo(b, Surviving(|b|))| < |Flat(b)|
  {
    if |b| > 16 {
      FlatToGrows(b, 2, 3);
      FlatToGrows(b, 3, |b|);
    }
  }

  lemma {:induction false} KeptIsAllExactly(h: History)
    requires BatchesHold(h)
    ensures |FlatFirst(h)| <= |FlatAll(h)|
    ensures |FlatFirst(h)| == |FlatAll(h)| <==> NoOverrun(h)
  {
    if h.Then? {
      KeptIsAllExactly(h.earlier);
      KeptIsShorter(h.batch);
    }
  }

  lemma FileAndRest(p: Pool)
    requires Conserved(p)
    ensures |p.file + Unwritten(p)| == |FlatFirst(Trimmed(p))| + |FlatAll(p.batches)| - |FlatAll(Trimmed(p))|
  {
    if p.pc.Write? {
      KeptIsFirst(p.batches.batch);
      FlatSplit(p.toWrite, p.pc.done);
      Assoc(FlatFirst(Finished(p)), FlatTo(p.toWrite, p.pc.done), FlatFrom(p.toWrite, p.pc.done));
    }
  }

  /** File, buffers being written, queue and current buffer are the accepted messages if and only if the
      over-16 rule never fired. */
  lemma NothingLostExactly(es: seq<Event>)
    ensures Run(es).Ok?
    ensures var p := Run(es).pool;
            && p.current.Some?
            && (p.accepted == p.file + Unwritten(p) + Flat(p.buffers) + p.current.value <==> NoOverrun(Trimmed(p)))
  {
    RunKeepsInv(es, |es|);
    RunKeepsHolding(es, |es|);
    var p := Run(es).pool;
    KeptIsAllExactly(Trimmed(p));
    FileAndRest(p);
    if NoOverrun(Trimmed(p)) {
      FileIsAll(p);
    }
  }

  lemma FileIsAll(p: Pool)
    requires Conserved(p) && NoOverrun(Trimmed(p))
    ensures p.file + Unwritten(p) == FlatAll(p.batches)
  {
    KeptIsAll(Finished(p));
    if p.pc.Write? {
      FlatSplit(p.toWrite, p.pc.done);
      Assoc(FlatAll(Finished(p)), FlatTo(p.toWrite, p.pc.done), FlatFrom(p.toWrite, p.pc.done));
    }
  }

  /** `append` loses its message exactly when the current buffer has some room but too little, or when
      the message exceeds a whole buffer and the current one is full. */
  lemma AppendLosesExactly(es: seq<Event>, msg: Message)
    ensures Run(es).Ok? && Run(es).pool.current.Some? && AppendStep(Run(es).pool, msg).Ok?
    ensures var p, q := Run(es).pool, AppendStep(Run(es).pool, msg).pool;
            var room := Avail(p.current.value);
            && (q.accepted == p.accepted + [msg] <==> !(0 < room < |msg|) && !(room == 0 && |msg| > CAPACITY))
            && (q.accepted == p.accepted <==> 0 < room < |msg| || (room == 0 && |msg| > CAPACITY))
            && Flat(q.buffers) + q.current.value
               == Flat(p.buffers) + p.current.value + (if q.accepted == p.accepted then [] else [msg])
  {
    RunKeepsInv(es, |es|);
    var p := Run(es).pool;
    assert p.next.Some? ==> p.next.value == [];
    FlatSnoc(p.buffers, p.current.value);
    assert p.accepted != p.accepted + [msg];
  }
}
