/** Floor division and floor modulo built on C#'s truncating integer operators.

    C#'s `/` rounds the quotient toward zero and its `%` takes the sign of the
    dividend; Dafny's own `/` and `%` are Euclidean. Both C# operators are
    therefore defined here explicitly, and floor division is derived from them
    the way the toolkit does it. Integers are unbounded: the 32-bit overflow of
    `int.MinValue / -1` is not modelled. */
module FloorArith {

  function Abs(x: int): nat
  {
    if x < 0 then -x else x
  }

  /** C#'s `x / y`: the quotient rounded toward zero. */
  function TruncDiv(x: int, y: int): (q: int)
    requires y != 0
    ensures Abs(y) * Abs(q) <= Abs(x) < Abs(y) * (Abs(q) + 1)
    ensures q == 0 || ((q < 0) <==> ((x < 0) != (y < 0)))
  {
    var a, b := Abs(x), Abs(y);
    var m := a / b;
    EuclideanBounds(a, b);
    var q := if (x < 0) == (y < 0) then m else -m;
    assert Abs(q) == m;
    assert b * Abs(q) <= a < b * (Abs(q) + 1);
    q
  }

  /** Dafny's Euclidean quotient of naturals brackets the dividend between consecutive multiples. */
  lemma EuclideanBounds(a: nat, b: nat)
    requires b > 0
    ensures 0 <= a / b
    ensures b * (a / b) <= a < b * (a / b + 1)
  {
    var m := a / b;
    assert a == b * m + a % b;
    assert b * (m + 1) == b * m + b;
  }

  /** C#'s `x % y`: the remainder of truncating division, signed like `x`. */
  function TruncRem(x: int, y: int): (m: int)
    requires y != 0
    ensures x == y * TruncDiv(x, y) + m
    ensures Abs(m) < Abs(y)
    ensures m == 0 || ((m < 0) <==> (x < 0))
  {
    var q := Abs(x) / Abs(y);
    var r := Abs(x) % Abs(y);
    assert Abs(x) == Abs(y) * q + r;
    assert y * TruncDiv(x, y) == if x < 0 then -(Abs(y) * q) else Abs(y) * q;
    if x < 0 then -r else r
  }

  /** The toolkit's sign test `(x ^ y) >= 0`: on two's-complement integers the
      exclusive or is non-negative exactly when the two sign bits agree. */
  predicate SameSign(x: int, y: int)
  {
    (x < 0) == (y < 0)
  }

  /** Floor division: the truncated quotient, decremented when the operands'
      signs differ and the division is inexact. */
  function FloorDiv(x: int, y: int): (r: int)
    requires y != 0
    ensures y > 0 ==> y * r <= x < y * (r + 1)
    ensures y < 0 ==> y * (r + 1) < x <= y * r
  {
    var q := TruncDiv(x, y);
    var mod := TruncRem(x, y);
    assert x == y * q + mod;
    assert y * (q - 1) == y * q - y;
    assert y * (q + 1) == y * q + y;
    if !SameSign(x, y) && mod != 0 then q - 1 else q
  }

  /** Floor modulo: what is left of `x` after taking out `y` times its floor quotient. */
  function FloorMod(x: int, y: int): (m: int)
    requires y != 0
    ensures y > 0 ==> 0 <= m < y
    ensures y < 0 ==> y < m <= 0
  {
    x - y * FloorDiv(x, y)
  }

  /** The toolkit's floating-point overload: both operands are cut to integers
      with C#'s `(int)` cast, which truncates toward zero, then reduced as integers. */
  function FloorModOfReals(x: real, y: real): (m: int)
    requires TruncateToInt(y) != 0
    ensures TruncateToInt(y) > 0 ==> 0 <= m < TruncateToInt(y)
    ensures TruncateToInt(y) < 0 ==> TruncateToInt(y) < m <= 0
  {
    FloorMod(TruncateToInt(x), TruncateToInt(y))
  }

  /** C#'s `(int)` conversion of a finite value in range: drop the fraction, toward zero. */
  function TruncateToInt(v: real): (n: int)
    ensures Abs(n) as real <= (if v < 0.0 then -v else v) < Abs(n) as real + 1.0
    ensures n == 0 || ((n < 0) <==> (v < 0.0))
  {
    if v < 0.0 then -((-v).Floor) else v.Floor
  }

  // ---------------------------------------------------------------------------
  // Properties

  /** The division identity that ties the two operations together. */
  lemma DivisionIdentity(x: int, y: int)
    requires y != 0
    ensures x == y * FloorDiv(x, y) + FloorMod(x, y)
  {
  }

  /** The floor quotient is the only integer whose multiple brackets `x` as floor division demands. */
  lemma {:induction false} FloorDivUnique(x: int, y: int, q: int)
    requires y != 0
    requires y > 0 ==> y * q <= x < y * (q + 1)
    requires y < 0 ==> y * (q + 1) < x <= y * q
    ensures q == FloorDiv(x, y)
  {
    var r := FloorDiv(x, y);
    if q < r {
      MulMonotone(y, q + 1, r);
    } else if r < q {
      MulMonotone(y, r + 1, q);
    }
  }

  /** The floor modulo is the only remainder that completes the division identity
      within `[0, y)` for a positive divisor or `(y, 0]` for a negative one,
      and the quotient that goes with it is the floor quotient. */
  lemma {:induction false} FloorModUnique(x: int, y: int, q: int, m: int)
    requires y != 0
    requires x == y * q + m
    requires y > 0 ==> 0 <= m < y
    requires y < 0 ==> y < m <= 0
    ensures q == FloorDiv(x, y)
    ensures m == FloorMod(x, y)
  {
    assert y * (q + 1) == y * q + y;
    FloorDivUnique(x, y, q);
  }

  /** Multiplying by a fixed non-zero factor keeps or reverses the order of two integers. */
  lemma {:induction false} MulMonotone(y: int, a: int, b: int)
    requires a <= b
    ensures y > 0 ==> y * a <= y * b
    ensures y < 0 ==> y * b <= y * a
  {
    assert y * b == y * a + y * (b - a);
    if y > 0 {
      assert y * (b - a) >= 0;
    } else if y < 0 {
      assert y * (b - a) <= 0;
    }
  }

  /** An independent reference: for a positive divisor floor division is Dafny's
      Euclidean division; for a negative one it is Euclidean division of the negations. */
  lemma FloorDivIsMathematicalFloor(x: int, y: int)
    requires y != 0
    ensures y > 0 ==> FloorDiv(x, y) == x / y
    ensures y < 0 ==> FloorDiv(x, y) == (-x) / (-y)
  {
    if y > 0 {
      FloorDivUnique(x, y, x / y);
    } else {
      var q := (-x) / (-y);
      assert -x == (-y) * q + (-x) % (-y);
      assert y * (q + 1) == y * q + y;
      FloorDivUnique(x, y, q);
    }
  }

  /** The same reference for the modulo: a positive divisor gives Dafny's `%`. */
  lemma FloorModIsMathematicalMod(x: int, y: int)
    requires y != 0
    ensures y > 0 ==> FloorMod(x, y) == x % y
    ensures y < 0 ==> FloorMod(x, y) == -((-x) % (-y))
  {
    FloorDivIsMathematicalFloor(x, y);
    if y > 0 {
      EuclideanRemainder(x, y);
    } else {
      EuclideanRemainder(-x, -y);
      assert y * FloorDiv(x, y) == -((-y) * FloorDiv(x, y));
    }
  }

  /** Dafny's Euclidean remainder is what is left after the Euclidean quotient's multiple. */
  lemma EuclideanRemainder(a: int, b: int)
    requires b > 0
    ensures a % b == a - b * (a / b)
  {
  }

  /** Spells out the adjustment of the truncated quotient: one is taken off exactly when
      the signs differ and the truncated remainder is non-zero. */
  lemma FloorDivAdjustsTruncation(x: int, y: int)
    requires y != 0
    ensures FloorDiv(x, y) == TruncDiv(x, y) - 1 <==> !SameSign(x, y) && TruncRem(x, y) != 0
    ensures FloorDiv(x, y) == TruncDiv(x, y) <==> SameSign(x, y) || TruncRem(x, y) == 0
  {
  }

  /** The worked example: a wrap-around index never goes negative. */
  lemma FloorModExample()
    ensures FloorMod(-1, 4) == 3
    ensures FloorMod(1, -4) == -3
    ensures TruncRem(-1, 4) == -1
  {
  }
}
