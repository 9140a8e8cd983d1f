/** Log/asynclogging.cc: the logger's fields and the atomic sections of `append` and `writeThread`.

    A `unique_ptr` to a buffer is the buffer's text, or None when it has been moved from: each buffer has
    exactly one holder, so moving it is copying the text and emptying the source. Every method says that
    the pool of LogPool.dfy takes the corresponding step, so what is proved there over every schedule
    holds of these methods in every interleaving. The local variables of `writeThread` are fields. */
module AsyncLogging {
  import opened Options
  import opened LogPool
  import opened Sequences

  type BufferPtr = Option<string>

  /** `LogBuffer::append` on the text of a buffer. */
  function AppendText(text: string, msg: string): string {
    if CAPACITY - |text| >= |msg| then text + msg else text
  }

  ghost predicate Is(b: BufferPtr, v: Option<Store>) {
    b == if v.Some? then Some(Bytes(v.value)) else None
  }

  ghost predicate Are(bs: seq<string>, vs: seq<Store>) {
    |bs| == |vs| && forall i | 0 <= i < |bs| :: bs[i] == Bytes(vs[i])
  }

  class AsyncLogging {
    var running: bool
    var current: BufferPtr
    var next: BufferPtr
    var buffers: seq<string>

    var spare1: BufferPtr
    var spare2: BufferPtr
    var toWrite: seq<string>
    var output: string

    /** The state of the pool machine. */
    ghost var view: Pool

    ghost predicate Valid()
      reads this
    {
      && Reachable(view)
      && running == view.running
      && Is(current, view.current) && Is(next, view.next) && Are(buffers, view.buffers)
      && Is(spare1, view.spare1) && Is(spare2, view.spare2) && Are(toWrite, view.toWrite)
      && output == Bytes(view.file)
    }

    constructor ()
      ensures Valid() && view == INITIAL
    {
      running := false;
      current, next, buffers := Some(""), Some(""), [];
      spare1, spare2, toWrite, output := Some(""), Some(""), [], "";
      view := INITIAL;
      assert Run([]) == Ok(INITIAL);
    }

    /** `start`: the writer thread gets to its loop test. */
    method Start()
      requires Valid() && view.pc == Unstarted
      modifies this`running, this`view
      ensures Valid() && Step(old(view), Begin) == Ok(view) && view.pc == LoopTest && running
    {
      ReachableStep(view, Begin);
      view := Step(view, Begin).pool;
      running := true;
    }

    /** The whole of `append`, under the lock: the current buffer is queued when it is exactly full. */
    method Append(msg: string)
      requires Valid()
      modifies this`current, this`next, this`buffers, this`view
      ensures Valid() && Step(old(view), Event.Append(msg)) == Ok(view)
      ensures old(current).Some?
      ensures var full := |old(current).value| == CAPACITY;
              var text := if full then "" else old(current).value;
              && current == Some(if |text| + |msg| <= CAPACITY then text + msg else text)
              && buffers == (if full then old(buffers) + [old(current).value] else old(buffers))
              && next == if full then None else old(next)
    {
      ReachableIsStocked(view);
      ReachableStep(view, Event.Append(msg));
      BytesSnoc(view.current.value, msg);
      BytesSnoc([], msg);
      view := Step(view, Event.Append(msg)).pool;
      if CAPACITY - |current.value| != 0 {
        current := Some(AppendText(current.value, msg));
      } else {
        buffers := buffers + [current.value];
        if next.Some? {
          current := next;
          next := None;
        } else {
          current := Some("");
        }
        current := Some(AppendText(current.value, msg));
      }
    }

    method Stop()
      requires Valid()
      modifies this`running, this`view
      ensures Valid() && Step(old(view), Event.Stop) == Ok(view) && !running
    {
      ReachableStep(view, Event.Stop);
      view := Step(view, Event.Stop).pool;
      running := false;
    }

    /** The loop test of `writeThread`. */
    method TestRunning() returns (again: bool)
      requires Valid() && view.pc == LoopTest
      modifies this`view
      ensures Valid() && Step(old(view), Test) == Ok(view)
      ensures again == running && view.pc == if running then Lock else Exited
    {
      ReachableStep(view, Test);
      view := Step(view, Test).pool;
      again := running;
    }

    /** The writer's critical section: it takes everything queued and the current buffer, and leaves empty ones. */
    method SwapBuffers()
      requires Valid() && view.pc == Lock
      modifies this`current, this`next, this`buffers, this`spare1, this`spare2, this`toWrite, this`view
      ensures Valid() && Step(old(view), Swap) == Ok(view)
      ensures old(current).Some? && toWrite == old(buffers) + [old(current).value]
      ensures buffers == [] && current == Some("") && next == Some("")
      ensures spare1 == None && spare2 == if old(next).None? then None else Some("")
    {
      ReachableIsStocked(view);
      ReachableStep(view, Swap);
      view := Step(view, Swap).pool;
      buffers := buffers + [current.value];
      current := spare1;
      spare1 := None;
      toWrite, buffers := buffers, toWrite;
      if next.None? {
        next := spare2;
        spare2 := None;
      }
    }

    /** The over-16 rule: of more than 16 buffers the first two stay. */
    method DropExcessBuffers()
      requires Valid() && view.pc == Trim
      modifies this`toWrite, this`view
      ensures Valid() && Step(old(view), DropExcess) == Ok(view)
      ensures toWrite == if |old(toWrite)| > 16 then old(toWrite)[..2] else old(toWrite)
    {
      ReachableIsStocked(view);
      ReachableStep(view, DropExcess);
      view := Step(view, DropExcess).pool;
      if |toWrite| > 16 {
        toWrite := toWrite[..2];
      }
    }

    /** The body of the writing loop. */
    method WriteBuffer(k: nat)
      requires Valid() && view.pc == Write(k) && k < |toWrite|
      modifies this`output, this`view
      ensures Valid() && Step(old(view), WriteOne) == Ok(view)
      ensures view == old(view).(pc := Write(k + 1), file := old(view).file + old(view).toWrite[k])
      ensures output == old(output) + toWrite[k]
    {
      ReachableStep(view, WriteOne);
      output := output + toWrite[k];
      BytesConcat(view.file, view.toWrite[k]);
      view := Step(view, WriteOne).pool;
    }

    /** The test that ends the writing loop. */
    ghost method LeaveWriting()
      requires Valid() && view.pc == Write(|toWrite|)
      modifies this`view
      ensures Valid() && view == old(view).(pc := Shrink)
    {
      ReachableStep(view, WriteOne);
      view := Step(view, WriteOne).pool;
    }

    /** The writing loop. */
    method WriteBuffers()
      requires Valid() && view.pc == Write(0)
      modifies this`output, this`view
      ensures Valid()
      ensures view == old(view).(pc := Shrink, file := old(view).file + Flat(old(view).toWrite))
      ensures output == old(output) + ConcatTo(toWrite, |toWrite|)
    {
      hide Reachable, Is, Bytes;
      ghost var before, was := output, view;
      for k := 0 to |toWrite|
        invariant Valid()
        invariant view == was.(pc := Write(k), file := was.file + FlatTo(was.toWrite, k))
        invariant output == before + ConcatTo(toWrite, k)
      {
        WriteBuffer(k);
        Assoc(was.file, FlatTo(was.toWrite, k), was.toWrite[k]);
        Assoc(before, ConcatTo(toWrite, k), toWrite[k]);
      }
      LeaveWriting();
    }

    method ShrinkBuffers()
      requires Valid() && view.pc == Shrink
      modifies this`toWrite, this`view
      ensures Valid() && Step(old(view), Resize) == Ok(view)
      ensures toWrite == if |old(toWrite)| > 2 then old(toWrite)[..2] else old(toWrite)
    {
      ReachableIsStocked(view);
      ReachableStep(view, Resize);
      view := Step(view, Resize).pool;
      if |toWrite| > 2 {
        toWrite := toWrite[..2];
      }
    }

    method RefillFirst()
      requires Valid() && view.pc == Refill1
      modifies this`spare1, this`toWrite, this`view
      ensures Valid() && Step(old(view), TakeFirst) == Ok(view)
      ensures spare1 == Some("") && |old(toWrite)| > 0 && toWrite == old(toWrite)[..|old(toWrite)| - 1]
    {
      ReachableIsStocked(view);
      ReachableStep(view, TakeFirst);
      view := Step(view, TakeFirst).pool;
      if spare1.None? {
        spare1, toWrite := Some(toWrite[|toWrite| - 1]), toWrite[..|toWrite| - 1];
        spare1 := Some("");  // reset
      }
    }

    method RefillSecond()
      requires Valid() && view.pc == Refill2
      modifies this`spare2, this`toWrite, this`view
      ensures Valid() && Step(old(view), TakeSecond) == Ok(view)
      ensures spare2 == Some("")
      ensures if old(spare2).Some? then toWrite == old(toWrite)
              else |old(toWrite)| > 0 && toWrite == old(toWrite)[..|old(toWrite)| - 1]
    {
      ReachableIsStocked(view);
      ReachableStep(view, TakeSecond);
      view := Step(view, TakeSecond).pool;
      if spare2.None? {
        spare2, toWrite := Some(toWrite[|toWrite| - 1]), toWrite[..|toWrite| - 1];
        spare2 := Some("");  // reset
      }
    }

    method ClearBuffers()
      requires Valid() && view.pc == Clear
      modifies this`toWrite, this`view
      ensures Valid() && Step(old(view), Finish) == Ok(view) && toWrite == []
    {
      ReachableStep(view, Finish);
      view := Step(view, Finish).pool;
      toWrite := [];
    }
  }

  lemma {:induction false} BytesToConcat(a: Store, b: Store, n: nat)
    requires n <= |b|
    ensures BytesTo(a + b, |a| + n) == Bytes(a) + BytesTo(b, n)
  {
    if n == 0 {
      BytesToPrefix(a, a + b, |a|);
    } else {
      BytesToConcat(a, b, n - 1);
    }
  }

  lemma BytesConcat(a: Store, b: Store)
    ensures Bytes(a + b) == Bytes(a) + Bytes(b)
  {
    BytesToConcat(a, b, |b|);
  }
}
