/**
 The per-tick rule of the linear-motor car, shared by its two revisions:
 pressing the key of the opposite pole flips the pole and adds a boost to the
 velocity, any other tick decays it; the velocity is clamped at zero and the
 position integrates the clamped velocity. The revisions differ only in
 their constants and in how velocity turns into distance (module `Game` for
 the first, `GameState` for the later one).
 */
module Vehicle {
  import GoInt

  datatype Pole = N | S

  /** `Pole.String`. */
  function PoleString(p: Pole): (s: string)
    ensures |s| == 1
    ensures s == "N" <==> p == N
    ensures s == "S" <==> p == S
  {
    match p
    case N => "N"
    case S => "S"
  }

  function Opposite(p: Pole): (q: Pole)
    ensures q != p
  {
    match p
    case N => S
    case S => N
  }

  /** The keys that went down on this tick (edge-triggered input). */
  datatype Keys = Keys(s: bool, n: bool)

  /** Pole, position and velocity of the car. */
  datatype Car = Car(pole: Pole, x: int, v: int)

  /** How one tick of velocity becomes distance: `x += v`, or, with the
      velocity in metres per hour and the position in millimetres,
      `x += v * 1e3 / 3600 / tps` in Go's truncating integer division. */
  datatype Integration = PerTick | MillimetresPerTick(tps: int)

  datatype Rule = Rule(boost: int, decay: int, integration: Integration)

  /** Go panics on an integer division by zero. */
  predicate Divides(rule: Rule) {
    rule.integration.MillimetresPerTick? ==> rule.integration.tps != 0
  }

  /** The opposite pole's key was pressed: the only input that boosts. */
  predicate Flips(p: Pole, keys: Keys) {
    (p == N && keys.s) || (p == S && keys.n)
  }

  function Max0(v: int): (r: nat)
    ensures r >= v && (r == v || r == 0)
  {
    if v < 0 then 0 else v
  }

  function Displacement(i: Integration, v: int): int
    requires i.MillimetresPerTick? ==> i.tps != 0
  {
    match i
    case PerTick => v
    case MillimetresPerTick(tps) => GoInt.Quo(GoInt.Quo(v * 1000, 3600), tps)
  }

  /** The distance of a tick is never negative when the velocity is not and
      the tick rate is positive. */
  predicate ForwardOnly(rule: Rule) {
    rule.integration.MillimetresPerTick? ==> rule.integration.tps > 0
  }

  lemma DisplacementNonNegative(i: Integration, v: int)
    requires v >= 0 && (i.MillimetresPerTick? ==> i.tps > 0)
    ensures Displacement(i, v) >= 0
    ensures v == 0 ==> Displacement(i, v) == 0
  {
  }

  /** One tick of `Update`. */
  function Step(rule: Rule, car: Car, keys: Keys): (r: Car)
    requires Divides(rule)
    ensures r.v >= 0
    ensures Flips(car.pole, keys) ==> r.pole == Opposite(car.pole) && r.v == Max0(car.v + rule.boost)
    ensures !Flips(car.pole, keys) ==> r.pole == car.pole && r.v == Max0(car.v - rule.decay)
    ensures r.x == car.x + Displacement(rule.integration, r.v)
  {
    var (pole, v) :=
      if car.pole == N && keys.s then (S, car.v + rule.boost)
      else if car.pole == S && keys.n then (N, car.v + rule.boost)
      else (car.pole, car.v - rule.decay);
    var v := if v < 0 then 0 else v;
    Car(pole, car.x + Displacement(rule.integration, v), v)
  }

  /** The car after one tick per element of `keys`, in order. */
  function Drive(rule: Rule, car: Car, keys: seq<Keys>): Car
    requires Divides(rule)
  {
    if |keys| == 0 then car
    else Step(rule, Drive(rule, car, keys[..|keys| - 1]), keys[|keys| - 1])
  }

  /** Driving `a` then `b` is driving `a + b`. */
  lemma {:induction false} DriveAppend(rule: Rule, car: Car, a: seq<Keys>, b: seq<Keys>)
    requires Divides(rule)
    ensures Drive(rule, car, a + b) == Drive(rule, Drive(rule, car, a), b)
  {
    if |b| == 0 {
      assert a + b == a;
    } else {
      var b' := b[..|b| - 1];
      DriveAppend(rule, car, a, b');
      assert (a + b)[..|a + b| - 1] == a + b';
      assert (a + b)[|a + b| - 1] == b[|b| - 1];
    }
  }

  /** No tick of `keys` presses the key of the opposite of pole `p`. */
  predicate NoFlips(p: Pole, keys: seq<Keys>) {
    forall i :: 0 <= i < |keys| ==> !Flips(p, keys[i])
  }

  /** Without flips, `k` ticks take the velocity to `max(0, v0 - decay * k)`
      (for `k >= 1`; a negative starting velocity is clamped on the first
      tick) and leave the pole alone. */
  lemma {:induction false} DecayWithoutFlips(rule: Rule, car: Car, keys: seq<Keys>)
    requires Divides(rule) && rule.decay >= 0 && NoFlips(car.pole, keys)
    ensures Drive(rule, car, keys).pole == car.pole
    ensures |keys| > 0 ==> Drive(rule, car, keys).v == Max0(car.v - rule.decay * |keys|)
  {
    if |keys| > 0 {
      var n := |keys|;
      var prefix := keys[..n - 1];
      assert NoFlips(car.pole, prefix) by {
        forall i | 0 <= i < |prefix| ensures !Flips(car.pole, prefix[i]) {
          assert prefix[i] == keys[i];
        }
      }
      DecayWithoutFlips(rule, car, prefix);
      assert !Flips(car.pole, keys[n - 1]);
      if n > 1 {
        DecayAgain(car.v, rule.decay, n - 1);
      }
    }
  }

  lemma DecayAgain(v: int, d: nat, k: nat)
    ensures Max0(Max0(v - d * k) - d) == Max0(v - d * (k + 1))
  {
    assert d * (k + 1) == d * k + d;
  }

  /** `d * k >= v` exactly when `k` is at least the ceiling of `v / d`. */
  lemma CeilingBound(v: nat, d: nat, k: nat)
    requires d > 0
    ensures d * k >= v <==> k >= (v + d - 1) / d
  {
    var c := GoInt.NatQuo(v + d - 1, d);
    if k >= c {
      MultiplyMonotone(d, c, k);
    } else {
      MultiplyMonotone(d, k, c - 1);
      assert d * (c - 1) == d * c - d;
    }
  }

  lemma MultiplyMonotone(d: nat, a: nat, b: nat)
    requires a <= b
    ensures d * a <= d * b
  {
    assert d * b == d * a + d * (b - a);
  }

  /** Without flips, the velocity reaches 0 after exactly `ceil(v0 / decay)`
      ticks and stays 0 from then on. */
  lemma StopsWithoutFlips(rule: Rule, car: Car, keys: seq<Keys>)
    requires Divides(rule) && rule.decay > 0 && car.v >= 0 && NoFlips(car.pole, keys)
    ensures Drive(rule, car, keys).v == 0 <==> |keys| >= (car.v + rule.decay - 1) / rule.decay
  {
    DecayWithoutFlips(rule, car, keys);
    CeilingBound(car.v, rule.decay, |keys|);
  }

  /** The position never decreases over a drive. */
  lemma {:induction false} PositionNeverDecreases(rule: Rule, car: Car, keys: seq<Keys>, i: nat, j: nat)
    requires Divides(rule) && ForwardOnly(rule) && i <= j <= |keys|
    ensures Drive(rule, car, keys[..i]).x <= Drive(rule, car, keys[..j]).x
    decreases j - i
  {
    if i < j {
      PositionNeverDecreases(rule, car, keys, i, j - 1);
      assert keys[..j][..j - 1] == keys[..j - 1];
      StepMovesForward(rule, Drive(rule, car, keys[..j - 1]), keys[j - 1]);
    }
  }

  lemma StepMovesForward(rule: Rule, car: Car, keys: Keys)
    requires Divides(rule) && ForwardOnly(rule)
    ensures Step(rule, car, keys).x >= car.x
  {
    DisplacementNonNegative(rule.integration, Step(rule, car, keys).v);
  }

  /** Once the car stands still without flips it stays where it is. */
  lemma {:induction false} StandsStill(rule: Rule, car: Car, keys: seq<Keys>)
    requires Divides(rule) && rule.decay >= 0
    requires car.v == 0 && NoFlips(car.pole, keys)
    ensures Drive(rule, car, keys) == car
  {
    if |keys| > 0 {
      var prefix := keys[..|keys| - 1];
      assert NoFlips(car.pole, prefix) by {
        forall i | 0 <= i < |prefix| ensures !Flips(car.pole, prefix[i]) {
          assert prefix[i] == keys[i];
        }
      }
      StandsStill(rule, car, prefix);
      assert !Flips(car.pole, keys[|keys| - 1]);
      ZeroDisplacement(rule.integration);
    }
  }

  /** Velocity 0 covers no distance, whatever the (non-zero) tick rate. */
  lemma ZeroDisplacement(i: Integration)
    requires i.MillimetresPerTick? ==> i.tps != 0
    ensures Displacement(i, 0) == 0
  {
    if i.MillimetresPerTick? {
      assert GoInt.Quo(0 * 1000, 3600) == 0;
    }
  }

  /** When the boost is a multiple of the decay, a velocity that is a
      multiple of the decay stays one, whatever keys are pressed. */
  lemma {:induction false} StaysMultipleOfDecay(rule: Rule, car: Car, keys: seq<Keys>)
    requires Divides(rule) && rule.decay > 0 && rule.boost % rule.decay == 0
    requires car.v % rule.decay == 0
    ensures Drive(rule, car, keys).v % rule.decay == 0
  {
    if |keys| > 0 {
      var before := Drive(rule, car, keys[..|keys| - 1]);
      StaysMultipleOfDecay(rule, car, keys[..|keys| - 1]);
      MultipleStep(before.v, rule.boost, rule.decay);
    }
  }

  lemma MultipleStep(v: int, boost: int, d: int)
    requires d > 0 && v % d == 0 && boost % d == 0
    ensures Max0(v + boost) % d == 0 && Max0(v - d) % d == 0
  {
    SumMultiple(v, boost, d);
    MultipleModulo(-1, d);
    SumMultiple(v, -d, d);
  }

  lemma SumMultiple(v: int, w: int, d: int)
    requires d > 0 && v % d == 0 && w % d == 0
    ensures (v + w) % d == 0
  {
    var q, b := v / d, w / d;
    assert v == q * d && w == b * d;
    assert v + w == (q + b) * d;
    MultipleModulo(q + b, d);
  }

  lemma MultipleModulo(q: int, d: int)
    requires d > 0
    ensures (q * d) % d == 0
  {
    var x := q * d;
    var k, r := x / d, x % d;
    assert x == k * d + r && 0 <= r < d;
    assert (q - k) * d == r;
    if q - k >= 1 {
      MultiplyMonotone(d, 1, q - k);
    } else if q - k <= -1 {
      MultiplyMonotone(d, 1, k - q);
      assert (k - q) * d == -r;
    }
  }
}
