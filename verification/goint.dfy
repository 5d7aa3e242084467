/** Go's integer division, which truncates toward zero. */
module GoInt {

  function Abs(a: int): nat {
    if a < 0 then -a else a
  }

  /** Go's `a / b` on `int`: the quotient rounded toward zero. Dafny's own
      `/` rounds so that the remainder is non-negative, which differs when
      `a` is negative. */
  function Quo(a: int, b: int): (q: int)
    requires b != 0
    ensures Abs(q) * Abs(b) <= Abs(a) < (Abs(q) + 1) * Abs(b)
    ensures q == 0 || ((q > 0) <==> ((a > 0) == (b > 0)))
    ensures a >= 0 && b > 0 ==> q == a / b
  {
    var n := NatQuo(Abs(a), Abs(b));
    if (a < 0) == (b < 0) then n else -(n as int)
  }

  /** The quotient of naturals, bracketed by multiples of the divisor. */
  function NatQuo(x: nat, y: nat): (n: nat)
    requires y > 0
    ensures n * y <= x < (n + 1) * y
    ensures n == x / y
  {
    var n := x / y;
    assert x == n * y + x % y;
    assert (n + 1) * y == n * y + y;
    n
  }
}
