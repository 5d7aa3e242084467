/**
 The task queue: `Sequence.AddTask` appends a task, `Sequence.Update` runs
 the front task once per tick and interprets the two sentinel errors.
 */
module Sequences {
  import opened Tasks

  datatype Sequence<!W> = Sequence(tasks: seq<Task<W>>)

  /** What one `Update` leaves behind: the queue, the error it returns and
      the world after every task it invoked. */
  datatype Tick<!W> = Tick(sequence: Sequence<W>, err: Err, world: W)

  /** Append `t` at the tail; the queued tasks keep their order. */
  function AddTask<W>(s: Sequence<W>, t: Task<W>): (r: Sequence<W>)
    ensures |r.tasks| == |s.tasks| + 1 && r.tasks[|s.tasks|] == t
    ensures forall k :: 0 <= k < |s.tasks| ==> r.tasks[k] == s.tasks[k]
  {
    Sequence(s.tasks + [t])
  }

  /** Run the front task. `TaskEnded` drops it and stops; `TaskEndedAndContinue`
      drops it and runs the new front in the same call, until a task returns
      something else or the queue is empty; nil leaves the (advanced) task at
      the front; any other error is returned with the task still at the front. */
  function Update<W>(s: Sequence<W>, w: W): (r: Tick<W>)
    decreases |s.tasks|
    // the sentinels never escape a sequence
    ensures !IsSentinel(r.err)
    // only a prefix of the queue is consumed: the tasks behind the new front are untouched
    ensures |r.sequence.tasks| <= |s.tasks|
    ensures |r.sequence.tasks| > 0 ==>
              r.sequence.tasks[1..] == s.tasks[|s.tasks| - |r.sequence.tasks| + 1..]
    // an empty queue is a no-op
    ensures |s.tasks| == 0 ==> r == Tick(s, NoError, w)
    // the front's answer decides the call; nothing behind it runs unless it continues
    ensures |s.tasks| > 0 && (Invoke(s.tasks[0], w).err.NoError? || Invoke(s.tasks[0], w).err.Failure?) ==>
              r == Tick(Sequence([Invoke(s.tasks[0], w).task] + s.tasks[1..]),
                        Invoke(s.tasks[0], w).err, Invoke(s.tasks[0], w).world)
    ensures |s.tasks| > 0 && Invoke(s.tasks[0], w).err.TaskEnded? ==>
              r == Tick(Sequence(s.tasks[1..]), NoError, Invoke(s.tasks[0], w).world)
  {
    if |s.tasks| == 0 then
      Tick(s, NoError, w)
    else
      var call := Invoke(s.tasks[0], w);
      var rest := Sequence(s.tasks[1..]);
      if call.err == TaskEnded then
        Tick(rest, NoError, call.world)
      else if call.err == TaskEndedAndContinue then
        var r := Update(rest, call.world);
        assert |r.sequence.tasks| > 0 ==> s.tasks[|s.tasks| - |r.sequence.tasks| + 1..]
                                           == rest.tasks[|rest.tasks| - |r.sequence.tasks| + 1..];
        r
      else
        Tick(Sequence([call.task] + rest.tasks), call.err, call.world)
  }

  /** True when `Update` consumes every task of `s` (the empty queue
      included), each of them answering `TaskEndedAndContinue`, so that a
      task queued behind them would run in the same call. */
  ghost predicate RunsThrough<W>(s: Sequence<W>, w: W)
    decreases |s.tasks|
  {
    |s.tasks| == 0 ||
    (Invoke(s.tasks[0], w).err.TaskEndedAndContinue? &&
     RunsThrough(Sequence(s.tasks[1..]), Invoke(s.tasks[0], w).world))
  }

  /** Tasks queued behind `s` do not change what `Update` does to `s`: they
      are reached in the same call only when every task of `s` answers
      `TaskEndedAndContinue`, and are left untouched otherwise. */
  lemma {:induction false} UpdateAppended<W>(s: Sequence<W>, later: seq<Task<W>>, w: W)
    decreases |s.tasks|
    ensures RunsThrough(s, w) ==>
              Update(s, w).sequence.tasks == [] &&
              Update(Sequence(s.tasks + later), w) == Update(Sequence(later), Update(s, w).world)
    ensures !RunsThrough(s, w) ==>
              Update(Sequence(s.tasks + later), w) ==
                Tick(Sequence(Update(s, w).sequence.tasks + later), Update(s, w).err, Update(s, w).world)
  {
    var all := Sequence(s.tasks + later);
    if |s.tasks| == 0 {
      assert all.tasks == later;
    } else {
      assert all.tasks[0] == s.tasks[0];
      assert all.tasks[1..] == s.tasks[1..] + later;
      var call := Invoke(s.tasks[0], w);
      if call.err.TaskEndedAndContinue? {
        UpdateAppended(Sequence(s.tasks[1..]), later, call.world);
      } else if call.err.TaskEnded? {
      } else {
        assert [call.task] + all.tasks[1..] == ([call.task] + s.tasks[1..]) + later;
      }
    }
  }

  /** A chain of `TaskEndedAndContinue`: when the first `k` tasks of `s` each
      answer `TaskEndedAndContinue` in turn, one `Update` drops exactly those
      `k` tasks and then treats task `k`, called in the world they left
      behind, as the front of the rest of the queue. */
  lemma ContinueChain<W>(s: Sequence<W>, w: W, k: nat)
    requires k < |s.tasks| && RunsThrough(Sequence(s.tasks[..k]), w)
    ensures var call := Invoke(s.tasks[k], Update(Sequence(s.tasks[..k]), w).world);
            && (call.err.NoError? || call.err.Failure? ==>
                  Update(s, w) == Tick(Sequence([call.task] + s.tasks[k + 1..]), call.err, call.world))
            && (call.err.TaskEnded? ==>
                  Update(s, w) == Tick(Sequence(s.tasks[k + 1..]), NoError, call.world))
            && (call.err.TaskEndedAndContinue? ==>
                  Update(s, w) == Update(Sequence(s.tasks[k + 1..]), call.world))
  {
    UpdateAppended(Sequence(s.tasks[..k]), s.tasks[k..], w);
    assert s.tasks[..k] + s.tasks[k..] == s.tasks;
    var rest := Sequence(s.tasks[k..]);
    assert rest.tasks[0] == s.tasks[k] && rest.tasks[1..] == s.tasks[k + 1..];
  }

  /** A task appended with `AddTask` behind a queue whose front ends with
      `TaskEnded` is not run in that call; it runs first on a later call. */
  lemma EndedDefersNext<W>(front: Task<W>, next: Task<W>, w: W)
    requires Invoke(front, w).err.TaskEnded?
    ensures Update(AddTask(Sequence([front]), next), w) ==
              Tick(Sequence([next]), NoError, Invoke(front, w).world)
  {
    assert AddTask(Sequence([front]), next).tasks[1..] == [next];
  }

  /** With `TaskEndedAndContinue` the task behind runs in the same call. */
  lemma ContinueRunsNext<W>(front: Task<W>, next: Task<W>, w: W)
    requires Invoke(front, w).err.TaskEndedAndContinue?
    ensures Update(AddTask(Sequence([front]), next), w) ==
              Update(Sequence([next]), Invoke(front, w).world)
  {
    assert AddTask(Sequence([front]), next).tasks[1..] == [next];
  }
}
