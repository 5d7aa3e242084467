# Manual Linear Motor Car: task engine, splash timeline and car physics

This project models three pieces of the 2022 Ebitengine game jam entry "Manual
Linear Motor Car" in Dafny:

- **The cooperative task engine** of `sequence.go`. A `Sequence` is a queue of
  tasks, and each `Update` runs the front task. Two sentinel errors are control
  signals:
  - `TaskEnded` drops the front task and stops;
  - `TaskEndedAndContinue` drops it and runs the next task in the same call.

  There are two task combinators:
  - `NewCountingTask` wraps an effect with a counter;
  - `NewAllTask` joins sub-tasks that run side by side. It has a sticky `cont`
    flag that picks the sentinel it finally returns.

  A Go task is a closure with captured state. Here it is a value of the
  datatype `Tasks.Task`, and a call returns the task's next state. Anything the
  closure reads or writes outside itself is a "world" value threaded through
  the calls.
- **The splash scene** of `splashscene.go`. On its first `Update` it queues
  four tasks: fade the logo in, hold it until a key or a timeout, fade it out,
  and request the game scene. The model proves the timeline in closed form:
  - the alpha on every tick;
  - the `Update` on which the switch is requested, with and without a key
    press;
  - that it never fails and is idle afterwards.
- **The car physics**: `Game.Update` in `main.go` and its later revision
  `GameState.Update` in `gamestate.go`. Pressing the key of the opposite pole
  flips the pole and boosts the velocity. Any other tick decays the velocity.
  The velocity is clamped at 0 and the position integrates it. Both revisions
  are one rule, `Vehicle.Step`, taken with different constants.

Modules, one file each: `Tasks` (`tasks.dfy`), `Lifetimes` (`lifetimes.dfy`),
`Sequences` (`sequence.dfy`), `Splash` (`splash.dfy`), `GoInt` (`goint.dfy`,
Go's truncating division), `Vehicle` (`vehicle.dfy`), `Game` (`game.dfy`) and
`GameState` (`gamestate.dfy`).

Two behaviours of the code are easy to misread, and the model states them
exactly:
- **Counting task.** `NewCountingTask` hands its effect the counters
  `0 .. max-1`, one per call, and returns `TaskEnded` on call `max`
  (`Lifetimes.CountingLifetime`).
- **Join.** `NewAllTask` reports completion on the call AFTER the one in which
  its last sub-task ended, because only a call that finds every slot nil
  returns a sentinel. Over sub-tasks that last 1 and 3 calls, that is the 4th
  call (`Lifetimes.JoinOfOneAndThree`).

## Model

| member | source | states |
|---|---|---|
| Tasks.NewCountingTask | sequence.go:44-47 | A new counting task has counted no calls yet and keeps the limit it was given. |
| Tasks.NewAllTask | sequence.go:59-60 | A new join holds every given task in its slot, in order, and its `cont` flag starts true. |
| Tasks.Invoke | sequence.go:44-87 | Calling a task keeps its kind. A counting task keeps its effect and limit. A join keeps its number of slots. |
| Tasks.InvokeCounting | sequence.go:47-56 | The effect gets the current counter and the limit. If the effect fails, its error is returned and the counter does not move. Otherwise the counter goes up by one, and the call returns `TaskEnded` exactly when the counter reaches the limit, nil otherwise. |
| Tasks.Sweep | sequence.go:62-78 | The loop over the slots: an uncalled slot keeps its contents and a nil slot is never called. The slot the loop starts at, when live, is called in the world the loop entered with: its answer is logged, a sentinel nils it, any other answer keeps the advanced task in it, and a failure stops the loop with that error, leaving the later slots alone. A called slot becomes nil exactly when it returned a sentinel. `execed` becomes true iff some slot was called. `cont` drops iff some slot returned plain `TaskEnded`. A sentinel never escapes the loop. A loop that completes has called every live slot. A failure is the last call made. A loop that called nothing leaves the world alone. |
| Tasks.InvokeAll | sequence.go:61-86 | A nil slot stays nil and `cont` never turns true again. A call in which a slot still held a task returns nil or a real error, never a sentinel. A call with every slot nil changes nothing and returns `TaskEndedAndContinue` if `cont` still holds, `TaskEnded` otherwise. |
| Tasks.JoinCallsFirstSlot | sequence.go:63-77 | The join calls its first slot, when live, in the caller's world. A sentinel nils the slot, and plain `TaskEnded` also clears `cont`. Any other answer keeps the advanced task in the slot. A failure is returned as the join's error, with the world the failing call left and the other slots untouched. |
| Tasks.JoinFailsOnlyThroughSubs | sequence.go:68-80 | A join's error is always one that a live sub-task returns when called. So a call with a live slot returns nil when none of its live sub-tasks can fail. |
| Tasks.SweepFailsThroughSlot | sequence.go:63-78 | The loop over slots `i..` fails only with an error that one of those slots returns when called. |
| Lifetimes.CountingLifetime | sequence.go:44-56 | With an effect that never fails, call n passes counter n-1. The task ends with `TaskEnded` exactly on call `max` (on the first call when `max <= 0`) and returns nil on every earlier call. |
| Lifetimes.SweepOfCounting | sequence.go:63-78 | One pass of the join's loop over counting sub-tasks nils those that reach their end call. The others count one more call. `cont` drops exactly when some sub-task ends on this call. |
| Lifetimes.JoinStep | sequence.go:61-81 | While some counting sub-task still runs, a call of the join advances every running sub-task and returns nil. |
| Lifetimes.JoinRunning | sequence.go:61-81 | While a counting sub-task of the join still runs, call n returns nil and leaves every sub-task that has not reached its end call counted n times, the others nil. |
| Lifetimes.JoinLifetime | sequence.go:59-86 | A join over counting sub-tasks returns nil on calls 1 to the longest sub-task's end call. On the next call it returns `TaskEnded`, since its sub-tasks end with `TaskEnded`. With no sub-tasks it returns `TaskEndedAndContinue` on the first call. |
| Lifetimes.JoinOfOneAndThree | sequence.go:79-85 | A join over sub-tasks that last 1 and 3 calls returns nil on call 3 and `TaskEnded` on call 4. |
| Lifetimes.JoinOfContinuing | sequence.go:68-83 | A join over two plain closures that answer `TaskEndedAndContinue` nils both slots and returns nil on its first call. On its second call it returns `TaskEndedAndContinue` and changes nothing. |
| Lifetimes.JoinOfEndedAndContinuing | sequence.go:69-85 | When one of the two closures answers plain `TaskEnded` instead, the first call clears `cont`, and the second call returns `TaskEnded`. |
| Lifetimes.JoinOfFailing | sequence.go:68-77 | A closure that fails aborts the join's call with its own error. A slot before it that answered `TaskEnded` is nil and `cont` is cleared. The slot after it is not called, and every later call fails the same way. |
| Sequences.AddTask | sequence.go:40-42 | The task goes to the tail and the queued tasks keep their order. |
| Sequences.Update | sequence.go:21-38 | A sentinel never leaves `Update`, and the queue never grows. Only a prefix of the queue is consumed, and the tasks behind the new front are untouched. An empty queue is left alone with nil. Only the front is run: nil or a real error leaves it at the front, advanced, and returns that result. `TaskEnded` drops it and returns nil without running anything else. |
| Sequences.ContinueChain | sequence.go:22-33 | When the first k tasks each answer `TaskEndedAndContinue` in turn, one `Update` drops exactly those k tasks. It then handles task k, called in the world they left, like a lone front: nil or a real error keeps it at the front, `TaskEnded` drops it and returns nil, and `TaskEndedAndContinue` goes on with the tasks behind it. |
| Sequences.UpdateAppended | sequence.go:22-33 | Tasks queued behind others run in the same call only when every earlier task returns `TaskEndedAndContinue`. Otherwise they are untouched. |
| Sequences.EndedDefersNext | sequence.go:27-33 | After `TaskEnded` the next task does not run in that call. It is the new front and the call returns nil. |
| Sequences.ContinueRunsNext | sequence.go:27-32 | After `TaskEndedAndContinue` the next task runs in the same call. |
| Splash.BuildSequence | splashscene.go:34-56 | The queue built on the first `Update` holds four tasks, in order: fade-in counting to `tps/2`, hold counting to `2*tps`, fade-out counting to `tps/2`, then the switch request. |
| Splash.Update | splashscene.go:34-60 | A scene `Update` always leaves a queue and never returns a sentinel. The queue is built only when there is none, with at most four tasks. A queue that already exists is run, never rebuilt: it never grows, and behind its new front it keeps exactly the tasks that were queued there. |
| Splash.BuildIsFadingIn | splashscene.go:34-56 | The built queue is the fade-in stage with nothing counted yet. |
| Splash.Simulation | splashscene.go:36-55 | One run of each stage's queue returns nil and leaves the next stage's queue. The fades set alpha to `c/m` and `(m-c)/m`, the hold sets it to 1 and ends early on a press, and the last task sets alpha 0, requests the switch once and empties the queue in the same call. |
| Splash.FirstUpdate | splashscene.go:34-35 | The first `Update` builds the queue and runs it like any later one. |
| Splash.FirstPress | splashscene.go:40-46 | The hold ends on its first tick that sees a press (that tick counts) or after its last tick. |
| Splash.HoldTicksIs | splashscene.go:40-46 | The hold lasts k ticks exactly when tick k is its first press, or when there is no press before its last tick k. |
| Splash.RunMatches | splashscene.go:34-60 | After n updates the scene is in closed form: the queue of the stage reached after n ticks, that stage's alpha, and one switch request once `Update` 2m + H + 1 has run. Here m = tps/2 and H is the hold length. |
| Splash.NeverFails | splashscene.go:57-60 | Every `Update` of the splash scene returns nil. |
| Splash.AlphaTimeline | splashscene.go:36-55 | `Update`s 1..m set alpha to 0/m .. (m-1)/m. The next H set it to 1. The next m set it to m/m .. 1/m. From `Update` 2m + H + 1 on, alpha is 0. |
| Splash.SwitchTimeline | splashscene.go:51-55 | The switch is requested once, on `Update` 2m + H + 1. The queue is empty from then on and never before. |
| Splash.IdleAfterSwitch | splashscene.go:51-55 | After the switch, every `Update` leaves the scene exactly as it is and returns nil. |
| Splash.SwitchWithoutPress | splashscene.go:40-55 | With no press in the hold, the switch is requested on `Update` `2*(tps/2) + 2*tps + 1`. |
| Splash.SwitchAfterPress | splashscene.go:40-55 | When hold tick k sees the first press, the switch is requested on `Update` `2*(tps/2) + k + 1`. |
| Splash.OnlyHoldPressesMatter | splashscene.go:40-46 | Only presses during the hold matter. Inputs that agree on the ticks of the first input's actual hold give the same scene after every `Update`. This covers presses during the fade-in, during a fade-out that follows a hold ended early, and after the switch. |
| Splash.FadeOutPressIgnored | splashscene.go:40-50 | At 2 ticks per second, with a press on the first hold tick, an extra press on the first fade-out tick leaves the scene after every `Update` unchanged. |
| GoInt.Quo | gamestate.go:52 | Go's integer division: the quotient is rounded toward zero. Its magnitude is bracketed by multiples of the divisor, its sign follows the operands' signs, and it agrees with floor division on non-negative operands. |
| Vehicle.PoleString | gamestate.go:21-30 | `Pole.String` (identical in `main.go:21-30`) gives the one-letter name "N" or "S" of the pole, and a different one for each pole. |
| Vehicle.Step | gamestate.go:39-52 | Pressing the opposite pole's key flips the pole and adds the boost. Any other tick keeps the pole and subtracts the decay. The velocity is clamped at 0, and the position advances by the distance of the clamped velocity. |
| Vehicle.DisplacementNonNegative | gamestate.go:52 | With a positive tick rate, a non-negative velocity never moves the car backwards. |
| Vehicle.DecayWithoutFlips | gamestate.go:46-51 | Without flips, k ticks keep the pole and leave the velocity at `max(0, v0 - decay*k)`. |
| Vehicle.StopsWithoutFlips | gamestate.go:46-51 | Without flips, the velocity is 0 exactly from tick `ceil(v0/decay)` on. |
| Vehicle.PositionNeverDecreases | gamestate.go:49-52 | With a positive tick rate, the position never decreases over any sequence of ticks. |
| Vehicle.StandsStill | main.go:46-52 | A stopped car that is not flipped keeps its pole, velocity and position. |
| Vehicle.StaysMultipleOfDecay | gamestate.go:42-51 | When the boost is a multiple of the decay, a velocity that is a multiple of the decay stays one, whatever keys are pressed. |
| Game.Update | main.go:38-53 | A flip toggles the pole and adds 5. Any other tick keeps the pole and takes 1 away. The velocity never ends below 0, and the position advances by the new velocity, so it never decreases. |
| Game.StopsAfterItsVelocity | main.go:46-52 | Without flips, a car at velocity v0 stops after exactly v0 ticks. After that, its velocity and position no longer change. |
| Game.NeverBacksUp | main.go:49-52 | The position never decreases. |
| GameState.Update | gamestate.go:38-53 | A flip toggles the pole and adds 25000. Any other tick keeps the pole and takes 2500 away. The velocity never ends below 0. The position advances by `v*1000/3600/tps` with Go's truncating division, and never decreases for a positive tick rate. |
| GameState.CoastsToAStop | gamestate.go:46-51 | Without flips, k ticks leave the velocity at `max(0, v0 - 2500k)`. It is 0 exactly from tick `ceil(v0/2500)` on. |
| GameState.StaysMultipleOf2500 | gamestate.go:42-51 | A velocity that starts as a multiple of 2500 stays one, whatever keys are pressed. |
| GameState.NeverBacksUp | gamestate.go:49-52 | With a positive tick rate the position never decreases. |

## Left out

- **Image loading** (splashscene.go:21-33), **`Draw`, `Layout` and `main`**: these are file, image and rendering I/O. The splash model starts with the image loaded.
- **`inpututil.IsKeyJustPressed`**: replaced by an input value per tick. The splash hold sees one boolean ("S, N or Space went down"). The car sees one boolean per key, S and N.
- **`ebiten.MaxTPS()`**: replaced by the parameter `tps`.
- **Splash timing lemmas for `tps < 2`**: the timeline lemmas assume `tps >= 2`. With a smaller rate, `tps/2` is 0 and the fade-in effect would compute `0/0` in floating point.
- **`SwitchToGameScene`**: counted in the world's `switches` field. The scene switcher itself and the scenes it switches to are not part of this model: gamescene.go, titlescene.go and the `SceneSwitcher` definition.
- **font.go**: embedded-file and font parsing, which is pure I/O.
- **`float64` alphas**: kept as exact ratios. `1 - c/m` is written `(m-c)/m`.
- **Go `int` overflow**: integers are unbounded.
- **Error identity**: Go compares errors by identity. `Failure(message)` stands for every error other than the two sentinels.
- **Tasks that append to their own sequence while running** (used only in gamescene.go): a task cannot reach its queue here.
- **Hidden state in plain closures**: a plain closure task (`Func`) is a pure function of the world. The only such task in the splash scene, the switch request, keeps no state of its own.
- **`Pole.String`'s `panic("invalid pole")` branch**: it cannot arise, because the pole is a two-valued datatype.
- Game.Update: its error result is not modelled, because `main.go:53` always returns nil.
- GameState.Update: its error result is not modelled, because `gamestate.go:53` always returns nil.
- **Shared closures**: a Go task is a closure, so one task queued twice, or held both by a join and by a queue, would share its counter. Here a task is a value that is copied, so each copy counts on its own. The repository never shares a task this way.
