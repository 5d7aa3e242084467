/**
 The first revision of the car (`Game.Update`): a flip adds 5 to the
 velocity, any other tick takes 1 away, and the position advances by the
 velocity itself.
 */
module Game {
  import opened Vehicle

  const Prototype := Rule(5, 1, PerTick)

  /** `Game.Update`; its error result is always nil and is not modelled. */
  function Update(g: Car, keys: Keys): (r: Car)
    ensures r.v >= 0
    ensures Flips(g.pole, keys) ==> r.pole == Opposite(g.pole) && r.v == (if g.v >= -5 then g.v + 5 else 0)
    ensures !Flips(g.pole, keys) ==> r.pole == g.pole && r.v == (if g.v >= 1 then g.v - 1 else 0)
    ensures r.x == g.x + r.v && r.x >= g.x
  {
    Step(Prototype, g, keys)
  }

  /** Without flips a car moving at `v0 >= 0` stops after exactly `v0`
      ticks; from then on neither its velocity nor its position changes. */
  lemma StopsAfterItsVelocity(g: Car, keys: seq<Keys>)
    requires g.v >= 0 && NoFlips(g.pole, keys)
    ensures Drive(Prototype, g, keys).v == 0 <==> |keys| >= g.v
    ensures |keys| >= g.v ==> Drive(Prototype, g, keys) == Drive(Prototype, g, keys[..g.v])
  {
    StopsWithoutFlips(Prototype, g, keys);
    if |keys| >= g.v {
      var head, tail := keys[..g.v], keys[g.v..];
      assert keys == head + tail;
      DriveAppend(Prototype, g, head, tail);
      assert NoFlips(g.pole, head) by {
        forall i | 0 <= i < |head| ensures !Flips(g.pole, head[i]) {
          assert head[i] == keys[i];
        }
      }
      DecayWithoutFlips(Prototype, g, head);
      StopsWithoutFlips(Prototype, g, head);
      var stopped := Drive(Prototype, g, head);
      assert NoFlips(stopped.pole, tail) by {
        forall i | 0 <= i < |tail| ensures !Flips(stopped.pole, tail[i]) {
          assert tail[i] == keys[g.v + i];
        }
      }
      StandsStill(Prototype, stopped, tail);
    }
  }

  /** The position never decreases. */
  lemma NeverBacksUp(g: Car, keys: seq<Keys>, i: nat, j: nat)
    requires i <= j <= |keys|
    ensures Drive(Prototype, g, keys[..i]).x <= Drive(Prototype, g, keys[..j]).x
  {
    PositionNeverDecreases(Prototype, g, keys, i, j);
  }
}
