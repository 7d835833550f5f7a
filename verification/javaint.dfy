/**
 * Java's integer conversions and division, which differ from Dafny's: a `(int)` cast of
 * a double truncates toward zero, and `/` and `%` on ints truncate the quotient toward
 * zero, so the remainder takes the sign of the dividend. Dafny's `/` and `%` are
 * Euclidean, so both are written out here.
 */
module JavaInt {

  /** `(int) x`: the integer part of x, rounding toward zero. */
  function Trunc(x: real): (r: int)
    ensures x >= 0.0 ==> r as real <= x < r as real + 1.0
    ensures x < 0.0 ==> r as real - 1.0 < x <= r as real
    ensures x >= 0.0 ==> r >= 0
    ensures x <= 0.0 ==> r <= 0
  {
    if x >= 0.0 then x.Floor else -((-x).Floor)
  }

  /** Java's `a / b` on ints: the quotient rounded toward zero. */
  function Quot(a: int, b: int): (q: int)
    requires b != 0
    ensures a >= 0 && b > 0 ==> q == a / b
    ensures a < 0 && b > 0 ==> q == -((-a) / b)
  {
    if (a >= 0) == (b > 0) then Abs(a) / Abs(b) else -(Abs(a) / Abs(b))
  }

  /** Java's `a % b` on ints, the remainder of `Quot`. */
  function Rem(a: int, b: int): (r: int)
    requires b != 0
    ensures a == Quot(a, b) * b + r
    ensures a >= 0 ==> 0 <= r < Abs(b)
    ensures a < 0 ==> -(Abs(b) as int) < r <= 0
  {
    RemIsSignedMod(a, b);
    a - Quot(a, b) * b
  }

  /** The Java remainder is the remainder of the magnitudes, with the dividend's sign. */
  lemma RemIsSignedMod(a: int, b: int)
    requires b != 0
    ensures a >= 0 ==> a - Quot(a, b) * b == Abs(a) % Abs(b)
    ensures a < 0 ==> a - Quot(a, b) * b == -(Abs(a) % Abs(b))
  {
    var q0, m := Abs(a) / Abs(b), Abs(a) % Abs(b);
    assert Abs(a) == q0 * Abs(b) + m;
    if b > 0 {
      assert Abs(b) == b;
    } else {
      assert Abs(b) == -b;
      assert q0 * Abs(b) == -(q0 * b);
      assert (-q0) * b == -(q0 * b);
    }
  }

  function Abs(a: int): (r: nat)
    ensures r == a || r == -a
  {
    if a < 0 then -a else a
  }

  /** Java's remainder agrees with Dafny's Euclidean one on non-negative dividends. */
  lemma RemNonNegative(a: int, b: int)
    requires a >= 0 && b > 0
    ensures Rem(a, b) == a % b
  {
  }

  /** A dividend already in [0, b) is its own remainder. */
  lemma RemSmall(a: int, b: int)
    requires b > 0
    ensures 0 <= a < b ==> Rem(a, b) == a
  {
    if 0 <= a < b {
      RemNonNegative(a, b);
      EuclidUnique(a, b, 0, a);
    }
  }

  /** On a negative dividend it is the Euclidean remainder less b, unless b divides a. */
  lemma RemNegative(a: int, b: int)
    requires a < 0 && b > 0
    ensures a % b == 0 ==> Rem(a, b) == 0
    ensures a % b != 0 ==> Rem(a, b) == a % b - b
  {
    var q := (-a) / b;
    var s := (-a) % b;
    assert -a == q * b + s;
    assert Rem(a, b) == -s;
    if s == 0 {
      assert a == (-q) * b;
      EuclidUnique(a, b, -q, 0);
    } else {
      assert a == (-q - 1) * b + (b - s);
      EuclidUnique(a, b, -q - 1, b - s);
    }
  }

  /** Euclidean division is the only one with a remainder in [0, b). */
  lemma EuclidUnique(a: int, b: int, q: int, r: int)
    requires b > 0 && 0 <= r < b && a == q * b + r
    ensures a / b == q && a % b == r
  {
    var q0, r0 := a / b, a % b;
    assert a == q0 * b + r0;
    assert (q0 - q) * b == q0 * b - q * b;
    assert (q0 - q) * b == r - r0;
    if q0 > q {
      MulAtLeast(q0 - q, b);
    } else if q0 < q {
      MulAtLeast(q - q0, b);
    }
  }

  lemma MulAtLeast(k: int, b: int)
    requires k >= 1 && b > 0
    ensures k * b >= b
  {
    assert k * b == b + (k - 1) * b;
  }
}
