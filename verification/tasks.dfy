/**
 The task values of the cooperative engine: the sentinel errors, the closures
 a sequence runs, and the two combinators that build closures with private
 progress state (the counting task and the parallel join).

 A Go task is a closure `func() error` that may mutate captured variables.
 Here a task is an explicit value: its captured progress (counter, sub-task
 slots, the join's `cont` flag) is a field, and invoking it yields the task's
 next state together with the error it returned. Whatever the closure reads
 or writes outside itself (scene fields, input, scene switches) is a "world"
 value of type W threaded through every invocation.
 */
module Tasks {

  /** A Go `error` as the engine sees it: nil, one of the two sentinel
      values, or any other error. */
  datatype Err = NoError | TaskEnded | TaskEndedAndContinue | Failure(message: string)

  /** The two control signals that only a sequence (or a join) consumes. */
  predicate IsSentinel(e: Err) {
    e.TaskEnded? || e.TaskEndedAndContinue?
  }

  /** A nil-able slot. */
  datatype Option<+T> = None | Some(value: T)

  /** An effect as passed to `NewCountingTask`: it receives the counter and
      the limit and may fail. */
  type Effect<!W> = (int, int, W) -> (Err, W)

  datatype Task<!W> =
    /** A plain closure with no progress state of its own. */
    | Func(run: W -> (Err, W))
    /** `NewCountingTask(effect, max)` after `current` successful calls. */
    | Counting(effect: Effect<W>, current: int, max: int)
    /** `NewAllTask(...)`: the slice of sub-tasks (nil once finished) and
        the sticky `cont` flag. */
    | All(subs: seq<Option<Task<W>>>, cont: bool)

  /** What one call of a task leaves behind. */
  datatype Invocation<!W> = Invocation(task: Task<W>, err: Err, world: W)

  /** What one pass of the join's loop over slots `i..` leaves behind:
      the new contents of those slots, what each slot's call returned
      (None when the slot was not called), the loop's `execed` and `cont`
      variables, the error the loop returns with (NoError when it ran to
      the end) and the world. */
  datatype SweepResult<!W> =
    SweepResult(subs: seq<Option<Task<W>>>, outcomes: seq<Option<Err>>,
                execed: bool, cont: bool, err: Err, world: W)

  /** True when some slot still holds a task. */
  predicate Live<W>(subs: seq<Option<Task<W>>>) {
    exists k :: 0 <= k < |subs| && subs[k].Some?
  }

  /** True when some slot was called. */
  predicate Called(outcomes: seq<Option<Err>>) {
    exists k :: 0 <= k < |outcomes| && outcomes[k].Some?
  }

  /** True when some called slot returned plain `TaskEnded`. */
  predicate SawEnded(outcomes: seq<Option<Err>>) {
    exists k :: 0 <= k < |outcomes| && outcomes[k] == Some(TaskEnded)
  }

  function NewCountingTask<W>(f: Effect<W>, counter: int): (t: Task<W>)
    ensures t.Counting? && t.effect == f && t.max == counter && t.current == 0
  {
    Counting(f, 0, counter)
  }

  function NewAllTask<W>(tasks: seq<Task<W>>): (t: Task<W>)
    ensures t.All? && t.cont && |t.subs| == |tasks|
    ensures forall k :: 0 <= k < |tasks| ==> t.subs[k] == Some(tasks[k])
  {
    All(seq(|tasks|, k requires 0 <= k < |tasks| => Some(tasks[k])), true)
  }

  /** One call of a task. */
  function Invoke<W>(t: Task<W>, w: W): (r: Invocation<W>)
    decreases t, 2, 0, 0
    ensures t.Func? ==> r.task == t
    ensures t.Counting? ==> r.task.Counting? && r.task.effect == t.effect && r.task.max == t.max
    ensures t.All? ==> r.task.All? && |r.task.subs| == |t.subs|
  {
    match t
    case Func(run) =>
      var (e, w') := run(w);
      Invocation(t, e, w')
    case Counting(_, _, _) => InvokeCounting(t, w)
    case All(_, _) => InvokeAll(t, w)
  }

  /** The closure built by `NewCountingTask`: call the effect with the
      current counter; on any error return it without advancing; otherwise
      advance and report `TaskEnded` once the counter reaches the limit. */
  function InvokeCounting<W>(t: Task<W>, w: W): (r: Invocation<W>)
    requires t.Counting?
    ensures r.task.Counting? && r.task.effect == t.effect && r.task.max == t.max
    ensures r.world == t.effect(t.current, t.max, w).1
    ensures t.effect(t.current, t.max, w).0 != NoError ==>
              r.err == t.effect(t.current, t.max, w).0 && r.task.current == t.current
    ensures t.effect(t.current, t.max, w).0 == NoError ==>
              && r.task.current == t.current + 1
              && (r.err == TaskEnded <==> t.max <= t.current + 1)
              && (r.err != TaskEnded <==> r.err == NoError)
  {
    var (e, w') := t.effect(t.current, t.max, w);
    if e != NoError then
      Invocation(t, e, w')
    else
      var next := t.(current := t.current + 1);
      if next.current >= next.max then Invocation(next, TaskEnded, w')
      else Invocation(next, NoError, w')
  }

  /** The closure built by `NewAllTask`: call every non-nil slot in order,
      nil the slots that signal completion, abort on any other error, and
      signal completion only on a call in which no slot was called. */
  function InvokeAll<W>(t: Task<W>, w: W): (r: Invocation<W>)
    requires t.All?
    decreases t, 1, 0, 0
    ensures r.task.All? && |r.task.subs| == |t.subs|
    // a finished slot stays finished; `cont` only ever goes from true to false
    ensures forall k :: 0 <= k < |t.subs| && t.subs[k].None? ==> r.task.subs[k].None?
    ensures r.task.cont ==> t.cont
    // a call in which some slot ran never signals completion
    ensures Live(t.subs) ==> r.err.NoError? || r.err.Failure?
    // a call in which no slot ran changes nothing and signals completion
    ensures !Live(t.subs) ==>
              && r.task == t && r.world == w
              && r.err == (if t.cont then TaskEndedAndContinue else TaskEnded)
  {
    var s := Sweep(t, 0, false, t.cont, w);
    LiveSlotsAreCalled(t, s);
    if s.err != NoError then
      Invocation(All(s.subs, s.cont), s.err, s.world)
    else if s.execed then
      Invocation(All(s.subs, s.cont), NoError, s.world)
    else if s.cont then
      Invocation(All(s.subs, s.cont), TaskEndedAndContinue, s.world)
    else
      Invocation(All(s.subs, s.cont), TaskEnded, s.world)
  }

  /** A live first slot is called in the world the join is called in: a
      sentinel nils it (plain `TaskEnded` also clears `cont`), any other
      answer keeps the advanced task in it, and its failure is the join's,
      with the other slots untouched. */
  lemma JoinCallsFirstSlot<W>(t: Task<W>, w: W)
    requires t.All? && |t.subs| > 0 && t.subs[0].Some?
    ensures var call, r := Invoke(t.subs[0].value, w), InvokeAll(t, w);
            && (IsSentinel(call.err) ==> r.task.subs[0].None?)
            && (!IsSentinel(call.err) ==> r.task.subs[0] == Some(call.task))
            && (call.err == TaskEnded ==> !r.task.cont)
            && (call.err.Failure? ==> r.err == call.err && r.task.subs[1..] == t.subs[1..] && r.world == call.world)
  {
    var s := Sweep(t, 0, false, t.cont, w);
    assert s.outcomes[0] == Some(TaskEnded) ==> SawEnded(s.outcomes);
  }

  /** The join fails only with an error one of its live sub-tasks returns,
      so a call with a live slot answers nil when none of them can fail. */
  lemma JoinFailsOnlyThroughSubs<W>(t: Task<W>, w: W)
    requires t.All?
    ensures InvokeAll(t, w).err.Failure? ==>
              exists k, v :: 0 <= k < |t.subs| && t.subs[k].Some? && Invoke(t.subs[k].value, v).err == InvokeAll(t, w).err
    ensures Live(t.subs) && (forall k, v :: 0 <= k < |t.subs| && t.subs[k].Some? ==> !Invoke(t.subs[k].value, v).err.Failure?) ==>
              InvokeAll(t, w).err.NoError?
  {
    SweepFailsThroughSlot(t, 0, false, t.cont, w);
  }

  /** The loop over slots `i..` fails only with an error one of those slots
      returns when called in some world. */
  lemma {:induction false} SweepFailsThroughSlot<W>(parent: Task<W>, i: nat, execed: bool, cont: bool, w: W)
    requires parent.All? && i <= |parent.subs|
    ensures var e := Sweep(parent, i, execed, cont, w).err;
            e.Failure? ==> exists k, v :: i <= k < |parent.subs| && parent.subs[k].Some? && Invoke(parent.subs[k].value, v).err == e
    decreases |parent.subs| - i
  {
    if i < |parent.subs| {
      if parent.subs[i].None? {
        SweepSkipsSlot(parent, i, execed, cont, w);
        SweepFailsThroughSlot(parent, i + 1, execed, cont, w);
      } else {
        var call := Invoke(parent.subs[i].value, w);
        if call.err.Failure? {
          assert Sweep(parent, i, execed, cont, w).err == call.err;
        } else {
          SweepCallsSlot(parent, i, execed, cont, w);
          SweepFailsThroughSlot(parent, i + 1, true, cont && call.err != TaskEnded, call.world);
        }
      }
    }
  }

  /** What the join's loop over slots `i..` of `parent` guarantees, entered
      with the loop variables `execed` and `cont` and the world `w`. */
  ghost predicate SweepPost<W>(parent: Task<W>, i: nat, execed: bool, cont: bool, w: W, r: SweepResult<W>)
    requires parent.All? && i <= |parent.subs|
  {
    && |r.subs| == |r.outcomes| == |parent.subs| - i
    // a slot that was not called keeps its contents; a nil slot is never called
    && (forall k :: 0 <= k < |r.outcomes| && r.outcomes[k].None? ==> r.subs[k] == parent.subs[i + k])
    && (forall k :: 0 <= k < |r.outcomes| && parent.subs[i + k].None? ==> r.outcomes[k].None?)
    // a called slot is nil afterwards exactly when it returned a sentinel
    && (forall k :: 0 <= k < |r.outcomes| && r.outcomes[k].Some? ==>
          (r.subs[k].None? <==> IsSentinel(r.outcomes[k].value)))
    && (r.execed <==> execed || Called(r.outcomes))
    && (r.cont <==> cont && !SawEnded(r.outcomes))
    // sentinels never escape the loop; when it completes, every live slot was called
    && (r.err.NoError? || r.err.Failure?)
    && (r.err.NoError? ==>
          forall k :: 0 <= k < |r.outcomes| ==> (r.outcomes[k].Some? <==> parent.subs[i + k].Some?))
    // an error aborts the loop: the failing slot is the last one called
    && (r.err.Failure? ==> Aborted(r.outcomes, r.err))
    && (!Called(r.outcomes) ==> r.world == w)
  }

  /** The join's loop over slots `i..` of `parent`, entered with the loop
      variables `execed` and `cont`. */
  function Sweep<W>(parent: Task<W>, i: nat, execed: bool, cont: bool, w: W): (r: SweepResult<W>)
    requires parent.All? && i <= |parent.subs|
    decreases parent, 0, |parent.subs| - i, 1
    ensures SweepPost(parent, i, execed, cont, w, r)
    // slot `i`, when live, is called in the world the loop entered with
    ensures i < |parent.subs| && parent.subs[i].Some? ==>
              var call := Invoke(parent.subs[i].value, w);
              && r.outcomes[0] == Some(call.err)
              && (IsSentinel(call.err) ==> r.subs[0].None?)
              && (!IsSentinel(call.err) ==> r.subs[0] == Some(call.task))
              && (call.err.Failure? ==> r.err == call.err && r.subs[1..] == parent.subs[i + 1..] && r.world == call.world)
  {
    if i == |parent.subs| then
      SweepResult([], [], execed, cont, NoError, w)
    else
      match parent.subs[i]
      case None =>
        var rest := Sweep(parent, i + 1, execed, cont, w);
        PrependPost(parent, i, execed, cont, w, None, None, w, rest);
        Prepend(None, None, rest)
      case Some(sub) =>
        assert sub < parent.subs[i];
        var call := Invoke(sub, w);
        if IsSentinel(call.err) then
          var rest := Sweep(parent, i + 1, true, cont && call.err != TaskEnded, call.world);
          PrependPost(parent, i, execed, cont, w, None, Some(call.err), call.world, rest);
          Prepend(None, Some(call.err), rest)
        else if call.err != NoError then
          var r := SweepResult([Some(call.task)] + parent.subs[i + 1..], AbortOutcomes(call.err, |parent.subs| - i - 1),
                               true, cont, call.err, call.world);
          AbortPost(parent, i, execed, cont, w, r);
          r
        else
          var rest := Sweep(parent, i + 1, true, cont, call.world);
          PrependPost(parent, i, execed, cont, w, Some(call.task), Some(NoError), call.world, rest);
          Prepend(Some(call.task), Some(NoError), rest)
  }

  /** Slot `i` handled, then the rest of the loop. */
  function Prepend<W>(slot: Option<Task<W>>, o: Option<Err>, rest: SweepResult<W>): SweepResult<W> {
    rest.(subs := [slot] + rest.subs, outcomes := [o] + rest.outcomes)
  }

  lemma PrependPost<W>(parent: Task<W>, i: nat, execed: bool, cont: bool, w: W,
                             slot: Option<Task<W>>, o: Option<Err>, w': W, rest: SweepResult<W>)
    requires parent.All? && i < |parent.subs|
    requires o.None? ==> slot == parent.subs[i]
    requires parent.subs[i].None? <==> o.None?
    requires o.Some? ==> (slot.None? <==> IsSentinel(o.value)) && !o.value.Failure?
    requires o.None? ==> w' == w
    requires SweepPost(parent, i + 1, execed || o.Some?, cont && o != Some(TaskEnded), w', rest)
    ensures SweepPost(parent, i, execed, cont, w, Prepend(slot, o, rest))
  {
    var r := Prepend(slot, o, rest);
    PrependOutcome(o, rest.outcomes, rest.err);
    assert forall k :: 0 < k < |r.outcomes| ==> r.outcomes[k] == rest.outcomes[k - 1] && r.subs[k] == rest.subs[k - 1];
    assert r.outcomes[0] == o && r.subs[0] == slot;
  }

  lemma AbortPost<W>(parent: Task<W>, i: nat, execed: bool, cont: bool, w: W, r: SweepResult<W>)
    requires parent.All? && i < |parent.subs| && parent.subs[i].Some?
    requires r.err.Failure? && r.execed && r.cont == cont
    requires |r.subs| == |r.outcomes| == |parent.subs| - i && r.outcomes[0] == Some(r.err)
    requires forall j :: 0 < j < |r.outcomes| ==> r.outcomes[j].None?
    requires Called(r.outcomes) && !SawEnded(r.outcomes) && Aborted(r.outcomes, r.err)
    requires r.subs == [r.subs[0]] + parent.subs[i + 1..] && r.subs[0].Some?
    ensures SweepPost(parent, i, execed, cont, w, r)
  {
  }

  /** The failing slot is the last one called. */
  predicate Aborted(outcomes: seq<Option<Err>>, e: Err) {
    exists k :: 0 <= k < |outcomes| && outcomes[k] == Some(e) &&
                forall j :: k < j < |outcomes| ==> outcomes[j].None?
  }

  lemma PrependCalled(o: Option<Err>, outcomes: seq<Option<Err>>)
    ensures Called([o] + outcomes) <==> o.Some? || Called(outcomes)
  {
    var all := [o] + outcomes;
    assert all[0] == o;
    if Called(outcomes) {
      var k :| 0 <= k < |outcomes| && outcomes[k].Some?;
      assert all[k + 1].Some?;
    }
    if Called(all) {
      var k :| 0 <= k < |all| && all[k].Some?;
      if k > 0 {
        assert outcomes[k - 1].Some?;
      }
    }
  }

  lemma PrependSawEnded(o: Option<Err>, outcomes: seq<Option<Err>>)
    ensures SawEnded([o] + outcomes) <==> o == Some(TaskEnded) || SawEnded(outcomes)
  {
    var all := [o] + outcomes;
    assert all[0] == o;
    if SawEnded(outcomes) {
      var k :| 0 <= k < |outcomes| && outcomes[k] == Some(TaskEnded);
      assert all[k + 1] == Some(TaskEnded);
    }
    if SawEnded(all) {
      var k :| 0 <= k < |all| && all[k] == Some(TaskEnded);
      if k > 0 {
        assert outcomes[k - 1] == Some(TaskEnded);
      }
    }
  }

  lemma PrependAborted(o: Option<Err>, outcomes: seq<Option<Err>>, e: Err)
    ensures Aborted(outcomes, e) ==> Aborted([o] + outcomes, e)
  {
    var all := [o] + outcomes;
    if Aborted(outcomes, e) {
      var k :| 0 <= k < |outcomes| && outcomes[k] == Some(e) &&
               forall j :: k < j < |outcomes| ==> outcomes[j].None?;
      assert all[k + 1] == Some(e);
      assert forall j :: k + 1 < j < |all| ==> all[j] == outcomes[j - 1];
    }
  }

  lemma PrependOutcome(o: Option<Err>, outcomes: seq<Option<Err>>, e: Err)
    ensures Called([o] + outcomes) <==> o.Some? || Called(outcomes)
    ensures SawEnded([o] + outcomes) <==> o == Some(TaskEnded) || SawEnded(outcomes)
    ensures Aborted(outcomes, e) ==> Aborted([o] + outcomes, e)
  {
    PrependCalled(o, outcomes);
    PrependSawEnded(o, outcomes);
    PrependAborted(o, outcomes, e);
  }

  /** The outcomes of a pass that called one slot, which failed with `e`,
      and left the `n` slots after it alone. */
  function AbortOutcomes(e: Err, n: nat): (o: seq<Option<Err>>)
    requires e.Failure?
    ensures |o| == n + 1 && o[0] == Some(e)
    ensures forall j :: 0 < j < |o| ==> o[j].None?
    ensures Called(o) && !SawEnded(o) && Aborted(o, e)
  {
    [Some(e)] + seq(n, _ => None)
  }

  /** One step of the loop at a nil slot. */
  lemma SweepSkipsSlot<W>(parent: Task<W>, i: nat, execed: bool, cont: bool, w: W)
    requires parent.All? && i < |parent.subs| && parent.subs[i].None?
    ensures Sweep(parent, i, execed, cont, w) == Prepend(None, None, Sweep(parent, i + 1, execed, cont, w))
  {
  }

  /** One step of the loop at a live slot whose call does not fail. */
  lemma SweepCallsSlot<W>(parent: Task<W>, i: nat, execed: bool, cont: bool, w: W)
    requires parent.All? && i < |parent.subs| && parent.subs[i].Some?
    requires !Invoke(parent.subs[i].value, w).err.Failure?
    ensures var call := Invoke(parent.subs[i].value, w);
            Sweep(parent, i, execed, cont, w) ==
              Prepend(if IsSentinel(call.err) then None else Some(call.task), Some(call.err),
                      Sweep(parent, i + 1, true, cont && call.err != TaskEnded, call.world))
  {
  }

  /** The loop at a live slot whose call fails: it stops there. */
  lemma SweepFailsAtSlot<W>(parent: Task<W>, i: nat, execed: bool, cont: bool, w: W)
    requires parent.All? && i < |parent.subs| && parent.subs[i].Some?
    requires Invoke(parent.subs[i].value, w).err.Failure?
    ensures var call := Invoke(parent.subs[i].value, w);
            Sweep(parent, i, execed, cont, w) ==
              SweepResult([Some(call.task)] + parent.subs[i + 1..], AbortOutcomes(call.err, |parent.subs| - i - 1),
                          true, cont, call.err, call.world)
  {
  }

  lemma LiveSlotsAreCalled<W>(t: Task<W>, s: SweepResult<W>)
    requires t.All? && |s.outcomes| == |t.subs|
    requires s.err.NoError? ==>
               forall k :: 0 <= k < |s.outcomes| ==> (s.outcomes[k].Some? <==> t.subs[k].Some?)
    ensures s.err.NoError? && Live(t.subs) ==> Called(s.outcomes)
  {
    if s.err.NoError? && Live(t.subs) {
      var k :| 0 <= k < |t.subs| && t.subs[k].Some?;
      assert s.outcomes[k].Some?;
    }
  }
}
