/**
 The splash scene: on its first `Update` it queues four tasks (fade the logo
 in, hold it until a key or a timeout, fade it out, request the switch to the
 game scene) and from then on runs that sequence once per tick.

 The closures write the scene's alpha and call the scene switcher; both are
 part of the world `Frame` they are handed, together with this tick's input
 (whether S, N or Space was just pressed). `tps` is the tick rate the engine
 reports.
 */
module Splash {
  import opened Tasks
  import opened Sequences
  import GoInt

  /** A float64 quotient `num / den`, kept exact. */
  datatype Ratio = Ratio(num: int, den: int)

  const Zero := Ratio(0, 1)
  const One := Ratio(1, 1)

  /** What the splash closures read and write. */
  datatype Frame = Frame(alpha: Ratio, switches: nat, pressed: bool)

  /** Fade-in effect: alpha is `counter / maxCounter`. */
  function FadeIn(counter: int, maxCounter: int, f: Frame): (Err, Frame) {
    (NoError, f.(alpha := Ratio(counter, maxCounter)))
  }

  /** Hold effect: alpha is 1; a key press ends the task early. */
  function Hold(counter: int, maxCounter: int, f: Frame): (Err, Frame) {
    (if f.pressed then TaskEnded else NoError, f.(alpha := One))
  }

  /** Fade-out effect: alpha is `1 - counter / maxCounter`. */
  function FadeOut(counter: int, maxCounter: int, f: Frame): (Err, Frame) {
    (NoError, f.(alpha := Ratio(maxCounter - counter, maxCounter)))
  }

  /** The last task: alpha 0, one call of `SwitchToGameScene`, and
      `TaskEndedAndContinue`. */
  function RequestGameScene(f: Frame): (Err, Frame) {
    (TaskEndedAndContinue, f.(alpha := Zero, switches := f.switches + 1))
  }

  /** Ticks of each fade: `MaxTPS() / 2`. */
  function FadeTicks(tps: int): int {
    GoInt.Quo(tps, 2)
  }

  /** Ticks the logo is held at most: `MaxTPS() * 2`. */
  function HoldTicksMax(tps: int): int {
    tps * 2
  }

  /** The four tasks queued on the first `Update`, in order. */
  function BuildSequence(tps: int): (s: Sequence<Frame>)
    ensures |s.tasks| == 4
    ensures s.tasks[0] == Counting(FadeIn, 0, FadeTicks(tps))
    ensures s.tasks[1] == Counting(Hold, 0, HoldTicksMax(tps))
    ensures s.tasks[2] == Counting(FadeOut, 0, FadeTicks(tps))
    ensures s.tasks[3] == Func(RequestGameScene)
  {
    var s := Sequence([]);
    var s := AddTask(s, NewCountingTask(FadeIn, FadeTicks(tps)));
    var s := AddTask(s, NewCountingTask(Hold, HoldTicksMax(tps)));
    var s := AddTask(s, NewCountingTask(FadeOut, FadeTicks(tps)));
    AddTask(s, Func(RequestGameScene))
  }

  /** The scene: its sequence (nil until the first `Update`), the alpha the
      logo is drawn with, and how often the switch to the game scene was
      requested. */
  datatype Scene = Scene(sequence: Option<Sequence<Frame>>, alpha: Ratio, switches: nat)

  const Initial := Scene(None, Zero, 0)

  datatype SceneTick = SceneTick(scene: Scene, err: Err)

  /** `SplashScene.Update` once the image is loaded: build the sequence if
      there is none yet, run it once, and return its error. */
  function Update(s: Scene, tps: int, pressed: bool): (r: SceneTick)
    ensures r.scene.sequence.Some?
    ensures !IsSentinel(r.err)
    // the sequence is built only while there is none: afterwards it only shrinks
    ensures s.sequence.None? ==> |r.scene.sequence.value.tasks| <= 4
    ensures s.sequence.Some? ==>
              |r.scene.sequence.value.tasks| <= |s.sequence.value.tasks|
    // an existing sequence is run, never rebuilt: behind its new front it keeps
    // exactly the tasks that were queued there
    ensures s.sequence.Some? ==>
              var q, t := s.sequence.value.tasks, r.scene.sequence.value.tasks;
              |t| > 0 ==> t[1..] == q[|q| - |t| + 1..]
  {
    var sequence := if s.sequence.None? then BuildSequence(tps) else s.sequence.value;
    var t := Sequences.Update(sequence, Frame(s.alpha, s.switches, pressed));
    SceneTick(Scene(Some(t.sequence), t.world.alpha, t.world.switches), t.err)
  }

  /** The scene after one `Update` per element of `inputs`, in order. */
  function Run(tps: int, inputs: seq<bool>): Scene
  {
    if |inputs| == 0 then Initial
    else Update(Run(tps, inputs[..|inputs| - 1]), tps, inputs[|inputs| - 1]).scene
  }

  /* ---- The timeline as a five-stage machine ---- */

  /** Where the queue is between two `Update`s: which task is at its front
      and how many calls that counting task has counted. */
  datatype Stage = FadingIn(counter: nat) | Holding(counter: nat) | FadingOut(counter: nat)
                 | Switching | Finished

  /** The queue a stage stands for. */
  function Queue(st: Stage, tps: int): Sequence<Frame> {
    var fadeOut := [Counting(FadeOut, 0, FadeTicks(tps)), Func(RequestGameScene)];
    match st
    case FadingIn(c) =>
      Sequence([Counting(FadeIn, c, FadeTicks(tps)), Counting(Hold, 0, HoldTicksMax(tps))] + fadeOut)
    case Holding(c) => Sequence([Counting(Hold, c, HoldTicksMax(tps))] + fadeOut)
    case FadingOut(c) => Sequence([Counting(FadeOut, c, FadeTicks(tps)), Func(RequestGameScene)])
    case Switching => Sequence([Func(RequestGameScene)])
    case Finished => Sequence([])
  }

  /** A counting task at the front has not reached its limit yet. */
  predicate Valid(st: Stage, tps: int) {
    && tps >= 2
    && match st
       case FadingIn(c) => c < FadeTicks(tps)
       case Holding(c) => c < HoldTicksMax(tps)
       case FadingOut(c) => c < FadeTicks(tps)
       case Switching => true
       case Finished => true
  }

  /** The stage after one `Update` with the given input. */
  function Next(st: Stage, tps: int, pressed: bool): Stage {
    match st
    case FadingIn(c) => if c + 1 >= FadeTicks(tps) then Holding(0) else FadingIn(c + 1)
    case Holding(c) =>
      if pressed || c + 1 >= HoldTicksMax(tps) then FadingOut(0) else Holding(c + 1)
    case FadingOut(c) => if c + 1 >= FadeTicks(tps) then Switching else FadingOut(c + 1)
    case Switching => Finished
    case Finished => Finished
  }

  /** The alpha an `Update` in stage `st` leaves (`alpha` is the one before). */
  function StageAlpha(st: Stage, tps: int, alpha: Ratio): Ratio {
    match st
    case FadingIn(c) => Ratio(c, FadeTicks(tps))
    case Holding(_) => One
    case FadingOut(c) => Ratio(FadeTicks(tps) - c, FadeTicks(tps))
    case Switching => Zero
    case Finished => alpha
  }

  /** The frame an `Update` in stage `st` leaves. */
  function After(st: Stage, tps: int, f: Frame): Frame {
    f.(alpha := StageAlpha(st, tps, f.alpha),
       switches := f.switches + if st.Switching? then 1 else 0)
  }

  /** The queue built on the first `Update` is the start of the fade-in. */
  lemma BuildIsFadingIn(tps: int)
    ensures BuildSequence(tps) == Queue(FadingIn(0), tps)
  {
    var s := BuildSequence(tps);
    assert s.tasks == Queue(FadingIn(0), tps).tasks;
  }

  /** One `Update` of the queue of a stage is the queue of the next stage:
      it never fails, the fade tasks set the alpha from their counter, the
      hold ends early on a press, and the switch is requested exactly when
      the queue is down to its last task. */
  lemma Simulation(st: Stage, tps: int, f: Frame)
    requires Valid(st, tps)
    ensures Valid(Next(st, tps, f.pressed), tps)
    ensures Sequences.Update(Queue(st, tps), f) ==
              Tick(Queue(Next(st, tps, f.pressed), tps), NoError, After(st, tps, f))
  {
    match st
    case FadingIn(c) => FadeInStep(c, tps, f);
    case Holding(c) => HoldStep(c, tps, f);
    case FadingOut(c) => FadeOutStep(c, tps, f);
    case Switching => assert Queue(st, tps).tasks[1..] == [];
    case Finished =>
  }

  lemma FadeInStep(c: nat, tps: int, f: Frame)
    requires Valid(FadingIn(c), tps)
    ensures Sequences.Update(Queue(FadingIn(c), tps), f) ==
              Tick(Queue(Next(FadingIn(c), tps, f.pressed), tps), NoError, After(FadingIn(c), tps, f))
  {
    var q := Queue(FadingIn(c), tps);
    var m := FadeTicks(tps);
    assert q.tasks[1..] == Queue(Holding(0), tps).tasks;
    assert Invoke(q.tasks[0], f) ==
             Invocation(Counting(FadeIn, c + 1, m), if c + 1 >= m then TaskEnded else NoError,
                        After(FadingIn(c), tps, f));
    if c + 1 < FadeTicks(tps) {
      assert [Counting(FadeIn, c + 1, FadeTicks(tps))] + q.tasks[1..] == Queue(FadingIn(c + 1), tps).tasks;
    }
  }

  lemma HoldStep(c: nat, tps: int, f: Frame)
    requires Valid(Holding(c), tps)
    ensures Sequences.Update(Queue(Holding(c), tps), f) ==
              Tick(Queue(Next(Holding(c), tps, f.pressed), tps), NoError, After(Holding(c), tps, f))
  {
    var q := Queue(Holding(c), tps);
    var h := HoldTicksMax(tps);
    assert q.tasks[1..] == Queue(FadingOut(0), tps).tasks;
    assert Invoke(q.tasks[0], f) ==
             if f.pressed then Invocation(q.tasks[0], TaskEnded, After(Holding(c), tps, f))
             else Invocation(Counting(Hold, c + 1, h), if c + 1 >= h then TaskEnded else NoError,
                             After(Holding(c), tps, f));
    if !f.pressed && c + 1 < HoldTicksMax(tps) {
      assert [Counting(Hold, c + 1, HoldTicksMax(tps))] + q.tasks[1..] == Queue(Holding(c + 1), tps).tasks;
    }
  }

  lemma FadeOutStep(c: nat, tps: int, f: Frame)
    requires Valid(FadingOut(c), tps)
    ensures Sequences.Update(Queue(FadingOut(c), tps), f) ==
              Tick(Queue(Next(FadingOut(c), tps, f.pressed), tps), NoError, After(FadingOut(c), tps, f))
  {
    var q := Queue(FadingOut(c), tps);
    var m := FadeTicks(tps);
    assert q.tasks[1..] == Queue(Switching, tps).tasks;
    assert Invoke(q.tasks[0], f) ==
             Invocation(Counting(FadeOut, c + 1, m), if c + 1 >= m then TaskEnded else NoError,
                        After(FadingOut(c), tps, f));
    if c + 1 < FadeTicks(tps) {
      assert [Counting(FadeOut, c + 1, FadeTicks(tps))] + q.tasks[1..] == Queue(FadingOut(c + 1), tps).tasks;
    }
  }

  /* ---- The whole timeline in closed form ---- */

  /** Input `i` (0-based: the input of `Update` number `i + 1`) is a press. */
  predicate Pressed(inputs: seq<bool>, i: int) {
    0 <= i < |inputs| && inputs[i]
  }

  /** Hold tick `j` (1-based), which is `Update` number `from + j`, sees a
      press. */
  predicate HoldPress(inputs: seq<bool>, from: int, j: int) {
    Pressed(inputs, from + j - 1)
  }

  /** The first hold tick `k .. h` that sees a press, or `h`. */
  function FirstPress(inputs: seq<bool>, from: int, k: nat, h: nat): (r: nat)
    requires 1 <= k <= h
    ensures k <= r <= h
    ensures r < h ==> HoldPress(inputs, from, r)
    ensures forall j :: k <= j < r ==> !HoldPress(inputs, from, j)
    decreases h - k
  {
    if k == h || HoldPress(inputs, from, k) then k
    else FirstPress(inputs, from, k + 1, h)
  }

  /** How many `Update`s the logo is held: up to the first press of the
      hold, at most `2 * tps`. */
  function HoldTicks(tps: int, inputs: seq<bool>): nat
    requires tps >= 2
  {
    FirstPress(inputs, FadeTicks(tps), 1, HoldTicksMax(tps))
  }

  /** The hold lasts `k` ticks exactly when tick `k` is the first press of
      the hold, or no tick before the last one is. */
  lemma HoldTicksIs(tps: int, inputs: seq<bool>, k: nat)
    requires tps >= 2 && 1 <= k <= HoldTicksMax(tps)
    requires k == HoldTicksMax(tps) || HoldPress(inputs, FadeTicks(tps), k)
    requires forall j :: 1 <= j < k ==> !HoldPress(inputs, FadeTicks(tps), j)
    ensures HoldTicks(tps, inputs) == k
  {
  }

  /** The stage after `n` `Update`s (for `n >= 1`; `n == 0` is the queue the
      first `Update` builds). */
  function StageAt(tps: int, inputs: seq<bool>, n: nat): Stage
    requires tps >= 2
  {
    var m, hold := FadeTicks(tps), HoldTicks(tps, inputs);
    if n < m then FadingIn(n)
    else if n < m + hold then Holding(n - m)
    else if n < 2 * m + hold then FadingOut(n - m - hold)
    else if n == 2 * m + hold then Switching
    else Finished
  }

  /** The `Update` on which the switch to the game scene is requested. */
  function SwitchUpdate(tps: int, inputs: seq<bool>): nat
    requires tps >= 2
  {
    2 * FadeTicks(tps) + HoldTicks(tps, inputs) + 1
  }

  /** The alpha after `n >= 1` `Update`s. */
  function AlphaAt(tps: int, inputs: seq<bool>, n: nat): Ratio
    requires tps >= 2 && n >= 1
  {
    StageAlpha(StageAt(tps, inputs, n - 1), tps, Zero)
  }

  /** How often the switch was requested after `n` `Update`s. */
  function SwitchesAt(tps: int, inputs: seq<bool>, n: nat): nat
    requires tps >= 2
  {
    if n >= SwitchUpdate(tps, inputs) then 1 else 0
  }

  /** Each closed-form stage is followed by the one the machine moves to,
      and the closed-form alpha and switch count follow the stage. */
  lemma StageStep(tps: int, inputs: seq<bool>, n: nat)
    requires tps >= 2 && n < |inputs|
    ensures Valid(StageAt(tps, inputs, n), tps)
    ensures StageAt(tps, inputs, n + 1) == Next(StageAt(tps, inputs, n), tps, inputs[n])
    ensures n >= 1 ==>
              AlphaAt(tps, inputs, n + 1) ==
                StageAlpha(StageAt(tps, inputs, n), tps, AlphaAt(tps, inputs, n))
    ensures SwitchesAt(tps, inputs, n + 1) ==
              SwitchesAt(tps, inputs, n) + if StageAt(tps, inputs, n).Switching? then 1 else 0
  {
    var m, hold := FadeTicks(tps), HoldTicks(tps, inputs);
    if m <= n < m + hold {
      var k := n - m + 1;
      assert HoldPress(inputs, m, k) == inputs[n];
      if k < hold {
        assert !HoldPress(inputs, m, k);
      }
    }
  }

  /** `Update` on a scene whose queue is that of a stage. */
  lemma SceneStep(st: Stage, tps: int, s: Scene, pressed: bool)
    requires Valid(st, tps) && s.sequence == Some(Queue(st, tps))
    ensures Update(s, tps, pressed) ==
              SceneTick(Scene(Some(Queue(Next(st, tps, pressed), tps)),
                              StageAlpha(st, tps, s.alpha),
                              s.switches + if st.Switching? then 1 else 0),
                        NoError)
  {
    Simulation(st, tps, Frame(s.alpha, s.switches, pressed));
  }

  /** The first `Update` builds the queue of the fade-in's first tick. */
  lemma FirstUpdate(tps: int, pressed: bool)
    ensures Update(Initial, tps, pressed) ==
              Update(Scene(Some(Queue(FadingIn(0), tps)), Zero, 0), tps, pressed)
  {
    BuildIsFadingIn(tps);
  }

  /** The scene after `n >= 1` `Update`s, in closed form. */
  lemma {:induction false} RunMatches(tps: int, inputs: seq<bool>, n: nat)
    requires tps >= 2 && 1 <= n <= |inputs|
    ensures Run(tps, inputs[..n]) ==
              Scene(Some(Queue(StageAt(tps, inputs, n), tps)),
                    AlphaAt(tps, inputs, n), SwitchesAt(tps, inputs, n))
  {
    if n == 1 {
      RunFirst(tps, inputs);
    } else {
      RunMatches(tps, inputs, n - 1);
      RunNext(tps, inputs, n - 1);
    }
  }

  /** The closed form holds after the first `Update`. */
  lemma RunFirst(tps: int, inputs: seq<bool>)
    requires tps >= 2 && 1 <= |inputs|
    ensures Run(tps, inputs[..1]) ==
              Scene(Some(Queue(StageAt(tps, inputs, 1), tps)),
                    AlphaAt(tps, inputs, 1), SwitchesAt(tps, inputs, 1))
  {
    assert inputs[..1][..0] == [];
    StageStep(tps, inputs, 0);
    FirstUpdate(tps, inputs[0]);
    SceneStep(FadingIn(0), tps, Scene(Some(Queue(FadingIn(0), tps)), Zero, 0), inputs[0]);
  }

  /** An `Update` on the closed form after `n` ticks gives the closed form
      after `n + 1`. */
  lemma RunNext(tps: int, inputs: seq<bool>, n: nat)
    requires tps >= 2 && 1 <= n < |inputs|
    requires Run(tps, inputs[..n]) ==
               Scene(Some(Queue(StageAt(tps, inputs, n), tps)),
                     AlphaAt(tps, inputs, n), SwitchesAt(tps, inputs, n))
    ensures Run(tps, inputs[..n + 1]) ==
              Scene(Some(Queue(StageAt(tps, inputs, n + 1), tps)),
                    AlphaAt(tps, inputs, n + 1), SwitchesAt(tps, inputs, n + 1))
  {
    assert inputs[..n + 1][..n] == inputs[..n];
    StageStep(tps, inputs, n);
    SceneStep(StageAt(tps, inputs, n), tps, Run(tps, inputs[..n]), inputs[n]);
  }

  /* ---- What the timeline promises ---- */

  /** No `Update` of the splash scene returns an error. */
  lemma NeverFails(tps: int, inputs: seq<bool>, n: nat)
    requires tps >= 2 && n < |inputs|
    ensures Update(Run(tps, inputs[..n]), tps, inputs[n]).err == NoError
  {
    StageStep(tps, inputs, n);
    if n == 0 {
      assert inputs[..0] == [];
      FirstUpdate(tps, inputs[0]);
      SceneStep(FadingIn(0), tps, Scene(Some(Queue(FadingIn(0), tps)), Zero, 0), inputs[0]);
    } else {
      RunMatches(tps, inputs, n);
      SceneStep(StageAt(tps, inputs, n), tps, Run(tps, inputs[..n]), inputs[n]);
    }
  }

  /** With `m = tps / 2` and a hold of `H` ticks (`1 <= H <= 2 * tps`):
      `Update`s 1 .. m fade in with alpha 0/m .. (m-1)/m, the next H hold
      alpha at 1, the next m fade out with alpha m/m .. 1/m, and from
      `Update` 2m + H + 1 on alpha is 0. */
  lemma AlphaTimeline(tps: int, inputs: seq<bool>, n: nat)
    requires tps >= 2 && 1 <= n <= |inputs|
    ensures var m, hold, alpha := tps / 2, HoldTicks(tps, inputs), Run(tps, inputs[..n]).alpha;
            && 1 <= hold <= 2 * tps
            && (n <= m ==> alpha == Ratio(n - 1, m))
            && (m < n <= m + hold ==> alpha == One)
            && (m + hold < n <= 2 * m + hold ==> alpha == Ratio(2 * m + hold + 1 - n, m))
            && (n > 2 * m + hold ==> alpha == Zero)
  {
    RunMatches(tps, inputs, n);
    AlphaClosedForm(tps, inputs, n);
  }

  /** `Update` 2m + H + 1 requests the switch to the game scene, once, and
      empties the queue; until then the queue is never empty. */
  lemma SwitchTimeline(tps: int, inputs: seq<bool>, n: nat)
    requires tps >= 2 && 1 <= n <= |inputs|
    ensures var s := Run(tps, inputs[..n]);
            && s.switches == (if n >= SwitchUpdate(tps, inputs) then 1 else 0)
            && s.sequence.Some?
            && (s.sequence.value.tasks == [] <==> n >= SwitchUpdate(tps, inputs))
  {
    RunMatches(tps, inputs, n);
    var st := StageAt(tps, inputs, n);
    assert st.Finished? <==> n >= SwitchUpdate(tps, inputs);
    FinishedIsEmpty(st, tps);
  }

  /** Only the finished stage has an empty queue. */
  lemma FinishedIsEmpty(st: Stage, tps: int)
    ensures Queue(st, tps).tasks == [] <==> st.Finished?
  {
  }

  /** The closed-form alpha of each phase. */
  lemma AlphaClosedForm(tps: int, inputs: seq<bool>, n: nat)
    requires tps >= 2 && n >= 1
    ensures var m, hold, alpha := tps / 2, HoldTicks(tps, inputs), AlphaAt(tps, inputs, n);
            && (n <= m ==> alpha == Ratio(n - 1, m))
            && (m < n <= m + hold ==> alpha == One)
            && (m + hold < n <= 2 * m + hold ==> alpha == Ratio(2 * m + hold + 1 - n, m))
            && (n > 2 * m + hold ==> alpha == Zero)
  {
    assert FadeTicks(tps) == tps / 2;
  }

  /** Once the switch has been requested the scene is idle: every later
      `Update` leaves it as it is and returns nil, so the switch is never
      requested twice. */
  lemma IdleAfterSwitch(tps: int, inputs: seq<bool>, n: nat)
    requires tps >= 2 && SwitchUpdate(tps, inputs) <= n < |inputs|
    ensures Update(Run(tps, inputs[..n]), tps, inputs[n]) == SceneTick(Run(tps, inputs[..n]), NoError)
  {
    SwitchTimeline(tps, inputs, n);
  }

  /** Without a press in the hold, the switch is requested on `Update`
      `2 * (tps / 2) + 2 * tps + 1`. */
  lemma SwitchWithoutPress(tps: int, inputs: seq<bool>, n: nat)
    requires tps >= 2 && 1 <= n <= |inputs|
    requires forall j :: 1 <= j < 2 * tps ==> !HoldPress(inputs, tps / 2, j)
    ensures Run(tps, inputs[..n]).switches == if n >= 2 * (tps / 2) + 2 * tps + 1 then 1 else 0
  {
    HoldTicksIs(tps, inputs, 2 * tps);
    SwitchTimeline(tps, inputs, n);
  }

  /** When hold tick `k` sees the first press of the hold, the switch is
      requested on `Update` `2 * (tps / 2) + k + 1`. */
  lemma SwitchAfterPress(tps: int, inputs: seq<bool>, k: nat, n: nat)
    requires tps >= 2 && 1 <= k <= 2 * tps && 1 <= n <= |inputs|
    requires HoldPress(inputs, tps / 2, k)
    requires forall j :: 1 <= j < k ==> !HoldPress(inputs, tps / 2, j)
    ensures Run(tps, inputs[..n]).switches == if n >= 2 * (tps / 2) + k + 1 then 1 else 0
  {
    HoldTicksIs(tps, inputs, k);
    SwitchTimeline(tps, inputs, n);
  }

  /** Only presses during the hold matter: inputs that agree on the ticks
      of `a`'s hold give the same scene after every `Update`, whatever is
      pressed during the fades, including a fade-out that follows a hold
      ended early, or after them. */
  lemma OnlyHoldPressesMatter(tps: int, a: seq<bool>, b: seq<bool>, n: nat)
    requires tps >= 2 && |a| == |b| && 1 <= n <= |a|
    requires forall j :: 1 <= j <= HoldTicks(tps, a) ==> HoldPress(a, tps / 2, j) == HoldPress(b, tps / 2, j)
    ensures Run(tps, a[..n]) == Run(tps, b[..n])
  {
    assert FadeTicks(tps) == tps / 2;
    var hold := HoldTicks(tps, a);
    HoldTicksIs(tps, b, hold);
    assert StageAt(tps, a, n) == StageAt(tps, b, n);
    assert StageAt(tps, a, n - 1) == StageAt(tps, b, n - 1);
    RunMatches(tps, a, n);
    RunMatches(tps, b, n);
  }

  /** Presses in a fade-out that follows a hold ended early change nothing:
      with a press on the first hold tick at 2 ticks per second, a second
      press on the first fade-out tick leaves every scene as it was. */
  lemma FadeOutPressIgnored(n: nat)
    requires 1 <= n <= 5
    ensures Run(2, [false, true, false, false, false][..n]) == Run(2, [false, true, true, false, false][..n])
  {
    var a, b := [false, true, false, false, false], [false, true, true, false, false];
    assert HoldTicks(2, a) == 1 by {
      assert HoldPress(a, FadeTicks(2), 1);
      HoldTicksIs(2, a, 1);
    }
    OnlyHoldPressesMatter(2, a, b, n);
  }
}
