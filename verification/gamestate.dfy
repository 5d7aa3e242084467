/**
 The later revision of the car (`GameState.Update`): velocity in metres per
 hour, position in millimetres; a flip adds 25000, any other tick takes
 2500 away, and the position advances by `v * 1e3 / 3600 / tps` with Go's
 truncating division, where `tps` is the tick rate.
 */
module GameState {
  import opened Vehicle
  import GoInt

  /** The rule of this revision: velocity in metres per hour, integrated
      into millimetres at `tps` ticks per second. */
  function MetresPerHour(tps: int): Rule {
    Rule(25000, 2500, MillimetresPerTick(tps))
  }

  /** `GameState.Update`; its error result is always nil and is not
      modelled. A zero tick rate would be a division by zero in Go. */
  function Update(g: Car, tps: int, keys: Keys): (r: Car)
    requires tps != 0
    ensures r.v >= 0
    ensures Flips(g.pole, keys) ==> r.pole == Opposite(g.pole) && r.v == (if g.v >= -25000 then g.v + 25000 else 0)
    ensures !Flips(g.pole, keys) ==> r.pole == g.pole && r.v == (if g.v >= 2500 then g.v - 2500 else 0)
    // Go's `/` truncates toward zero; for a positive tick rate that is Dafny's `/`
    ensures r.x == g.x + GoInt.Quo(GoInt.Quo(r.v * 1000, 3600), tps)
    ensures tps > 0 ==> r.x == g.x + (r.v * 1000 / 3600) / tps && r.x >= g.x
  {
    Step(MetresPerHour(tps), g, keys)
  }

  /** Without flips `k >= 1` ticks leave the velocity at
      `max(0, v0 - 2500 * k)`; it is 0 exactly from tick `ceil(v0 / 2500)` on. */
  lemma CoastsToAStop(g: Car, tps: int, keys: seq<Keys>)
    requires tps != 0 && g.v >= 0 && NoFlips(g.pole, keys)
    ensures |keys| > 0 ==> Drive(MetresPerHour(tps), g, keys).v == Max0(g.v - 2500 * |keys|)
    ensures Drive(MetresPerHour(tps), g, keys).v == 0 <==> |keys| >= (g.v + 2499) / 2500
  {
    DecayWithoutFlips(MetresPerHour(tps), g, keys);
    StopsWithoutFlips(MetresPerHour(tps), g, keys);
  }

  /** A velocity that starts as a multiple of 2500 stays one, whatever the
      keys. */
  lemma StaysMultipleOf2500(g: Car, tps: int, keys: seq<Keys>)
    requires tps != 0 && g.v % 2500 == 0
    ensures Drive(MetresPerHour(tps), g, keys).v % 2500 == 0
  {
    StaysMultipleOfDecay(MetresPerHour(tps), g, keys);
  }

  /** With a positive tick rate the position never decreases. */
  lemma NeverBacksUp(g: Car, tps: int, keys: seq<Keys>, i: nat, j: nat)
    requires tps > 0 && i <= j <= |keys|
    ensures Drive(MetresPerHour(tps), g, keys[..i]).x <= Drive(MetresPerHour(tps), g, keys[..j]).x
  {
    PositionNeverDecreases(MetresPerHour(tps), g, keys, i, j);
  }
}
