/**
 How the two combinators behave over their whole life: a counting task
 driven call after call, and a join over counting tasks.
 */
module Lifetimes {
  import opened Tasks

  /** An effect that never returns an error. */
  ghost predicate NeverFails<W(!new)>(f: Effect<W>) {
    forall c, m, w :: f(c, m, w).0 == NoError
  }

  /** The task, error and world after `n` successive calls of `t`, the
      first made in world `w` (zero calls: `t` itself, no error). */
  function Repeat<W>(t: Task<W>, w: W, n: nat): Invocation<W>
  {
    if n == 0 then Invocation(t, NoError, w)
    else
      var before := Repeat(t, w, n - 1);
      Invoke(before.task, before.world)
  }

  /** A counting task with a harmless effect: the n-th call passes counter
      n - 1, and the task ends on call `max` (on the first call when
      `max <= 0`), never earlier. */
  lemma {:induction false} CountingLifetime<W(!new)>(f: Effect<W>, max: int, w: W, n: nat)
    requires NeverFails(f)
    requires 1 <= n && (n <= max || n == 1)
    ensures Repeat(NewCountingTask(f, max), w, n - 1).task == Counting(f, n - 1, max)
    ensures Repeat(NewCountingTask(f, max), w, n).world ==
              f(n - 1, max, Repeat(NewCountingTask(f, max), w, n - 1).world).1
    ensures Repeat(NewCountingTask(f, max), w, n).task == Counting(f, n, max)
    ensures Repeat(NewCountingTask(f, max), w, n).err == TaskEnded <==> max <= n
    ensures Repeat(NewCountingTask(f, max), w, n).err == NoError <==> n < max
  {
    var t := NewCountingTask(f, max);
    if n > 1 {
      CountingLifetime(f, max, w, n - 1);
    }
    var before := Repeat(t, w, n - 1);
    assert before.task == Counting(f, n - 1, max);
    assert f(n - 1, max, before.world).0 == NoError;
  }

  /** The call on which a counting task with limit `m` reports `TaskEnded`. */
  function End(m: int): (e: int)
    ensures e >= 1 && (m >= 1 ==> e == m)
  {
    if m <= 0 then 1 else m
  }

  /** How many calls the longest of a list of counting tasks lasts. */
  function Span(ms: seq<int>): (s: nat)
    ensures forall j :: 0 <= j < |ms| ==> End(ms[j]) <= s
    ensures |ms| > 0 ==> exists j :: 0 <= j < |ms| && End(ms[j]) == s
    ensures |ms| == 0 ==> s == 0
  {
    if |ms| == 0 then 0
    else
      var rest := Span(ms[1..]);
      assert forall j :: 1 <= j < |ms| ==> ms[j] == ms[1..][j - 1];
      if End(ms[0]) >= rest then End(ms[0]) else rest
  }

  /** `NewAllTask` over counting tasks with effects `fs` and limits `ms`. */
  function JoinOfCounting<W>(fs: seq<Effect<W>>, ms: seq<int>): Task<W>
    requires |fs| == |ms|
  {
    NewAllTask(seq(|ms|, j requires 0 <= j < |ms| => NewCountingTask(fs[j], ms[j])))
  }

  /** That join after `k` calls, none of them failing: a counting task that
      has reached its end call is nil, the others have counted `k` calls,
      and `cont` has dropped as soon as one of them ended. */
  function JoinAfter<W>(fs: seq<Effect<W>>, ms: seq<int>, k: nat): Task<W>
    requires |fs| == |ms|
  {
    All(seq(|ms|, j requires 0 <= j < |ms| =>
                    if End(ms[j]) <= k then None else Some(Counting(fs[j], k, ms[j]))),
        forall j :: 0 <= j < |ms| ==> k < End(ms[j]))
  }

  /** One pass of the join's loop over slots `i..` in state `JoinAfter(k)`
      returns nil, leaves those slots as in `JoinAfter(k + 1)`, and drops
      `cont` exactly when one of those counting tasks ends on this call. */
  ghost predicate SweepsToNext<W>(fs: seq<Effect<W>>, ms: seq<int>, k: nat, i: nat,
                                  execed: bool, cont: bool, w: W)
    requires |fs| == |ms| && i <= |ms|
  {
    var r := Sweep(JoinAfter(fs, ms, k), i, execed, cont, w);
    && r.err == NoError
    && r.subs == JoinAfter(fs, ms, k + 1).subs[i..]
    && (r.cont <==> cont && forall j :: i <= j < |ms| ==> End(ms[j]) != k + 1)
  }

  lemma {:induction false} SweepOfCounting<W(!new)>(fs: seq<Effect<W>>, ms: seq<int>, k: nat, i: nat,
                                                    execed: bool, cont: bool, w: W)
    requires |fs| == |ms| && i <= |ms|
    requires forall j :: 0 <= j < |fs| ==> NeverFails(fs[j])
    ensures SweepsToNext(fs, ms, k, i, execed, cont, w)
    decreases |ms| - i
  {
    if i < |ms| {
      var t := JoinAfter(fs, ms, k);
      match t.subs[i]
      case None =>
        SweepOfCounting(fs, ms, k, i + 1, execed, cont, w);
        SkipSlot(fs, ms, k, i, execed, cont, w);
      case Some(sub) =>
        var call := Invoke(sub, w);
        SweepOfCounting(fs, ms, k, i + 1, true, cont && call.err != TaskEnded, call.world);
        CallSlot(fs, ms, k, i, execed, cont, w);
    }
  }

  /** A slot whose counting task already ended is skipped. */
  lemma SkipSlot<W>(fs: seq<Effect<W>>, ms: seq<int>, k: nat, i: nat, execed: bool, cont: bool, w: W)
    requires |fs| == |ms| && i < |ms| && End(ms[i]) <= k
    requires SweepsToNext(fs, ms, k, i + 1, execed, cont, w)
    ensures SweepsToNext(fs, ms, k, i, execed, cont, w)
  {
    SweepSkipsSlot(JoinAfter(fs, ms, k), i, execed, cont, w);
    NextSlots(fs, ms, k, i);
    EndsHere(ms, k, i);
  }

  /** A slot whose counting task is still running is called: it counts one
      more call, or ends and drops `cont` when this is its end call. */
  lemma CallSlot<W(!new)>(fs: seq<Effect<W>>, ms: seq<int>, k: nat, i: nat, execed: bool, cont: bool, w: W)
    requires |fs| == |ms| && i < |ms| && k < End(ms[i])
    requires NeverFails(fs[i])
    requires var call := Invoke(Counting(fs[i], k, ms[i]), w);
             SweepsToNext(fs, ms, k, i + 1, true, cont && call.err != TaskEnded, call.world)
    ensures SweepsToNext(fs, ms, k, i, execed, cont, w)
  {
    var t := JoinAfter(fs, ms, k);
    assert t.subs[i] == Some(Counting(fs[i], k, ms[i]));
    CountingCall(fs[i], k, ms[i], w);
    SweepCallsSlot(t, i, execed, cont, w);
    NextSlots(fs, ms, k, i);
    EndsHere(ms, k, i);
  }

  /** A call of a running counting task with a harmless effect. */
  lemma CountingCall<W(!new)>(f: Effect<W>, k: nat, m: int, w: W)
    requires NeverFails(f) && k < End(m)
    ensures Invoke(Counting(f, k, m), w).err == if End(m) == k + 1 then TaskEnded else NoError
    ensures Invoke(Counting(f, k, m), w).task == Counting(f, k + 1, m)
  {
    assert f(k, m, w).0 == NoError;
  }

  /** The slots `i..` of the join after call k + 1. */
  lemma NextSlots<W>(fs: seq<Effect<W>>, ms: seq<int>, k: nat, i: nat)
    requires |fs| == |ms| && i < |ms|
    ensures JoinAfter(fs, ms, k + 1).subs[i..] ==
              [if End(ms[i]) <= k + 1 then None else Some(Counting(fs[i], k + 1, ms[i]))] +
              JoinAfter(fs, ms, k + 1).subs[i + 1..]
  {
    var next := JoinAfter(fs, ms, k + 1);
    assert next.subs[i..] == [next.subs[i]] + next.subs[i + 1..];
  }

  /** No task of `i..` ends on call k + 1 when neither task `i` nor any of
      `i + 1..` does. */
  lemma EndsHere(ms: seq<int>, k: nat, i: nat)
    requires i < |ms|
    ensures (forall j :: i <= j < |ms| ==> End(ms[j]) != k + 1) <==>
            End(ms[i]) != k + 1 && (forall j :: i + 1 <= j < |ms| ==> End(ms[j]) != k + 1)
  {
  }

  /** A call of the join in state `JoinAfter(k)` while some counting task
      is still running moves it to `JoinAfter(k + 1)` and returns nil. */
  lemma JoinStep<W(!new)>(fs: seq<Effect<W>>, ms: seq<int>, k: nat, w: W)
    requires |fs| == |ms| && k < Span(ms)
    requires forall j :: 0 <= j < |fs| ==> NeverFails(fs[j])
    ensures Invoke(JoinAfter(fs, ms, k), w).task == JoinAfter(fs, ms, k + 1)
    ensures Invoke(JoinAfter(fs, ms, k), w).err == NoError
  {
    var t, next := JoinAfter(fs, ms, k), JoinAfter(fs, ms, k + 1);
    var j :| 0 <= j < |ms| && End(ms[j]) == Span(ms);
    assert t.subs[j].Some?;
    SweepOfCounting(fs, ms, k, 0, false, t.cont, w);
    assert next.subs[0..] == next.subs;
    SweptJoin(t, w);
    ContStep(ms, k);
  }

  /** A pass of the loop that called a live slot and ran to the end is
      what the join's call returns. */
  lemma SweptJoin<W>(t: Task<W>, w: W)
    requires t.All? && Live(t.subs) && Sweep(t, 0, false, t.cont, w).err == NoError
    ensures var s := Sweep(t, 0, false, t.cont, w);
            Invoke(t, w) == Invocation(All(s.subs, s.cont), NoError, s.world)
  {
    LiveSlotsAreCalled(t, Sweep(t, 0, false, t.cont, w));
  }

  /** `cont` after call k + 1: no counting task has ended by then. */
  lemma ContStep(ms: seq<int>, k: nat)
    ensures ((forall j :: 0 <= j < |ms| ==> k < End(ms[j])) &&
             (forall j :: 0 <= j < |ms| ==> End(ms[j]) != k + 1))
            <==> (forall j :: 0 <= j < |ms| ==> k + 1 < End(ms[j]))
  {
  }

  /** A join over counting tasks with harmless effects returns nil on calls
      1 .. Span(ms) and signals completion on the call after that: with
      `TaskEnded`, since its sub-tasks all end with `TaskEnded`, or with
      `TaskEndedAndContinue` when it has no sub-tasks at all. */
  lemma JoinLifetime<W(!new)>(fs: seq<Effect<W>>, ms: seq<int>, w: W, n: nat)
    requires |fs| == |ms| && n <= Span(ms) + 1
    requires forall j :: 0 <= j < |fs| ==> NeverFails(fs[j])
    ensures n <= Span(ms) ==> Repeat(JoinOfCounting(fs, ms), w, n).task == JoinAfter(fs, ms, n)
    ensures 1 <= n <= Span(ms) ==> Repeat(JoinOfCounting(fs, ms), w, n).err == NoError
    ensures n == Span(ms) + 1 ==>
              Repeat(JoinOfCounting(fs, ms), w, n).err ==
                (if |ms| == 0 then TaskEndedAndContinue else TaskEnded)
  {
    if n <= Span(ms) {
      JoinRunning(fs, ms, w, n);
    } else {
      JoinRunning(fs, ms, w, n - 1);
      var before := Repeat(JoinOfCounting(fs, ms), w, n - 1);
      JoinEnds(fs, ms, before.world);
    }
  }

  /** While a counting task of the join still runs, call n leaves the join
      in state `JoinAfter(n)` and returns nil. */
  lemma {:induction false} JoinRunning<W(!new)>(fs: seq<Effect<W>>, ms: seq<int>, w: W, n: nat)
    requires |fs| == |ms| && n <= Span(ms)
    requires forall j :: 0 <= j < |fs| ==> NeverFails(fs[j])
    ensures Repeat(JoinOfCounting(fs, ms), w, n).task == JoinAfter(fs, ms, n)
    ensures n >= 1 ==> Repeat(JoinOfCounting(fs, ms), w, n).err == NoError
  {
    if n == 0 {
      JoinStarts(fs, ms);
    } else {
      JoinRunning(fs, ms, w, n - 1);
      RunningStep(fs, ms, w, n - 1);
    }
  }

  lemma RunningStep<W(!new)>(fs: seq<Effect<W>>, ms: seq<int>, w: W, k: nat)
    requires |fs| == |ms| && k < Span(ms) && Repeat(JoinOfCounting(fs, ms), w, k).task == JoinAfter(fs, ms, k)
    requires forall j :: 0 <= j < |fs| ==> NeverFails(fs[j])
    ensures Repeat(JoinOfCounting(fs, ms), w, k + 1).task == JoinAfter(fs, ms, k + 1)
    ensures Repeat(JoinOfCounting(fs, ms), w, k + 1).err == NoError
  {
    JoinStep(fs, ms, k, Repeat(JoinOfCounting(fs, ms), w, k).world);
  }

  /** A new join over counting tasks is `JoinAfter(0)`. */
  lemma JoinStarts<W>(fs: seq<Effect<W>>, ms: seq<int>)
    requires |fs| == |ms|
    ensures JoinOfCounting(fs, ms) == JoinAfter(fs, ms, 0)
  {
    assert JoinOfCounting(fs, ms).subs == JoinAfter(fs, ms, 0).subs;
  }

  /** Once every counting task has ended, the join signals completion. */
  lemma JoinEnds<W>(fs: seq<Effect<W>>, ms: seq<int>, w: W)
    requires |fs| == |ms|
    ensures Invoke(JoinAfter(fs, ms, Span(ms)), w).err ==
              (if |ms| == 0 then TaskEndedAndContinue else TaskEnded)
  {
    var last := JoinAfter(fs, ms, Span(ms));
    AllEnded(fs, ms);
    if |ms| > 0 {
      assert End(ms[0]) <= Span(ms);
    }
    assert last.cont <==> |ms| == 0;
    assert Invoke(last, w) == InvokeAll(last, w);
  }

  /** After `Span(ms)` calls every slot of the join is nil. */
  lemma AllEnded<W>(fs: seq<Effect<W>>, ms: seq<int>)
    requires |fs| == |ms|
    ensures !Live(JoinAfter(fs, ms, Span(ms)).subs)
  {
    var last := JoinAfter(fs, ms, Span(ms));
    forall k | 0 <= k < |last.subs|
      ensures last.subs[k].None?
    {
      assert End(ms[k]) <= Span(ms);
    }
  }

  /** Two counting tasks, one of them ending on its first call and one on
      its third: the join returns nil on calls 1 to 3 and reports
      `TaskEnded` on call 4, one call after its last sub-task ended. */
  lemma JoinOfOneAndThree<W(!new)>(f: Effect<W>, w: W)
    requires NeverFails(f)
    ensures Repeat(JoinOfCounting([f, f], [1, 3]), w, 3).err == NoError
    ensures Repeat(JoinOfCounting([f, f], [1, 3]), w, 4).err == TaskEnded
  {
    assert Span([1, 3]) == 3;
    JoinLifetime([f, f], [1, 3], w, 3);
    JoinLifetime([f, f], [1, 3], w, 4);
  }

  /** A plain closure that always answers `e` and leaves the world alone. */
  function Answer<W(!new)>(e: Err): (t: Task<W>)
    ensures t.Func? && forall x :: t.run(x) == (e, x)
  {
    Func((x: W) => (e, x))
  }

  /** A join over closures that answer `TaskEndedAndContinue`: the first call
      runs them, nils both slots and returns nil; the second finds nothing
      to run and lets the sequence go on in the same call. */
  lemma JoinOfContinuing<W(!new)>(w: W)
    ensures var t := NewAllTask([Answer(TaskEndedAndContinue), Answer(TaskEndedAndContinue)]);
            && Repeat(t, w, 1) == Invocation(All([None, None], true), NoError, w)
            && Repeat(t, w, 2) == Invocation(All([None, None], true), TaskEndedAndContinue, w)
  {
    TwoSentinels(TaskEndedAndContinue, TaskEndedAndContinue, w);
    Emptied(true, w);
  }

  /** One plain `TaskEnded` among the sub-tasks is enough for the join to end
      with `TaskEnded` rather than let the sequence continue. */
  lemma JoinOfEndedAndContinuing<W(!new)>(w: W)
    ensures var t := NewAllTask([Answer(TaskEndedAndContinue), Answer(TaskEnded)]);
            && Repeat(t, w, 1) == Invocation(All([None, None], false), NoError, w)
            && Repeat(t, w, 2) == Invocation(All([None, None], false), TaskEnded, w)
  {
    TwoSentinels(TaskEndedAndContinue, TaskEnded, w);
    Emptied(false, w);
  }

  /** The first call of a join over two closures that answer sentinels. */
  lemma TwoSentinels<W(!new)>(a: Err, b: Err, w: W)
    requires IsSentinel(a) && IsSentinel(b)
    ensures Invoke(NewAllTask([Answer(a), Answer(b)]), w) ==
              Invocation(All([None, None], a != TaskEnded && b != TaskEnded), NoError, w)
  {
    var t := NewAllTask([Answer(a), Answer(b)]);
    SweepCallsSlot(t, 0, false, true, w);
    SweepCallsSlot(t, 1, true, a != TaskEnded, w);
  }

  /** A join whose two slots are nil answers with its `cont` flag. */
  lemma Emptied<W(!new)>(cont: bool, w: W)
    ensures Invoke(All([None, None], cont), w) ==
              Invocation(All([None, None], cont), if cont then TaskEndedAndContinue else TaskEnded, w)
  {
    assert !Live<W>([None, None]);
  }

  /** A failing sub-task aborts the call with its own error: the slots behind
      it are not called, and the join keeps failing on later calls. */
  lemma JoinOfFailing<W(!new)>(m: string, w: W)
    ensures var t := NewAllTask([Answer(TaskEnded), Answer(Failure(m)), Answer(TaskEnded)]);
            && Repeat(t, w, 1) == Invocation(Failed(m), Failure(m), w)
            && Repeat(t, w, 2) == Invocation(Failed(m), Failure(m), w)
  {
    var t := NewAllTask([Answer(TaskEnded), Answer(Failure(m)), Answer(TaskEnded)]);
    FailingFirstCall(t, m, w);
    FailingLaterCall(m, w);
  }

  /** The join of `JoinOfFailing` after its first call. */
  function Failed<W(!new)>(m: string): Task<W> {
    All([None, Some(Answer(Failure(m))), Some(Answer(TaskEnded))], false)
  }

  lemma FailingFirstCall<W(!new)>(t: Task<W>, m: string, w: W)
    requires t == NewAllTask([Answer(TaskEnded), Answer(Failure(m)), Answer(TaskEnded)])
    ensures Invoke(t, w) == Invocation(Failed(m), Failure(m), w)
  {
    assert t.subs == [Some(Answer(TaskEnded)), Some(Answer(Failure(m))), Some(Answer(TaskEnded))];
    SweepCallsSlot(t, 0, false, true, w);
    SweepFailsAtSlot(t, 1, true, false, w);
    assert t.subs[2..] == [Some(Answer(TaskEnded))];
    assert Sweep(t, 0, false, true, w).subs == Failed(m).subs;
  }

  lemma FailingLaterCall<W(!new)>(m: string, w: W)
    ensures Invoke(Failed(m), w) == Invocation(Failed(m), Failure(m), w)
  {
    var t := Failed(m);
    SweepSkipsSlot(t, 0, false, false, w);
    SweepFailsAtSlot(t, 1, false, false, w);
    assert t.subs[2..] == [Some(Answer(TaskEnded))];
  }
}
