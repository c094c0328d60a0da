/** Numeric vocabulary shared by the payoffs and the lattice engine:
    positive spot prices, lattice times measured in layers, the `std::max`
    the payoffs are built from, and integer powers of the up factor. */
module Numbers {

  /** A positive real. */
  type Positive = x: real | x > 0.0 witness 1.0

  /** A real that is not negative, such as the value of an option. */
  type NonNegative = x: real | x >= 0.0

  /** A spot price of the underlying. Every node of a lattice rooted at a
      positive spot has a positive spot. */
  type Spot = Positive

  /** Layer `step` of a lattice with `steps` layers after the root. Time is
      counted in layers, so maturity is the last layer. */
  datatype Moment = Moment(step: nat, steps: nat) {
    predicate AtMaturity() { step == steps }
  }

  /** A moment that lies inside its lattice. */
  type Time = m: Moment | m.step <= m.steps witness Moment(0, 0)

  /** The calendar time, in years, of a lattice time for a contract that
      matures after `maturity` years: layer j of n is j * maturity / n. */
  function Elapsed(maturity: real, t: Time): (e: real)
    ensures t.AtMaturity() ==> e == maturity
    ensures maturity >= 0.0 ==> 0.0 <= e <= maturity
    ensures t.step == 0 && t.steps > 0 ==> e == 0.0
    ensures t.steps > 0 ==>
      e == maturity - (t.steps - t.step) as real * (maturity / t.steps as real)
  {
    if t.steps == 0 then maturity
    else
      var frac := t.step as real / t.steps as real;
      assert 0.0 <= frac <= 1.0;
      maturity * frac
  }

  /** `std::max` on two values: the first one unless it is less than the second. */
  function Max(a: real, b: real): (m: real)
    ensures m >= a && m >= b
    ensures m == a || m == b
  {
    if a < b then b else a
  }

  /** x raised to a natural power. */
  function PowNat(x: real, k: nat): (r: real)
    ensures x > 0.0 ==> r > 0.0
  {
    if k == 0 then 1.0 else x * PowNat(x, k - 1)
  }

  /** x raised to an integer power; negative powers are reciprocals. */
  function Pow(x: real, e: int): (r: real)
    requires x > 0.0
    ensures r > 0.0
  {
    if e >= 0 then PowNat(x, e) else 1.0 / PowNat(x, -e)
  }

  /** Raising the exponent by one multiplies by the base, on both sides of zero. */
  lemma PowSucc(x: real, e: int)
    requires x > 0.0
    ensures Pow(x, e + 1) == Pow(x, e) * x
  {
    if e >= 0 {
      assert PowNat(x, e + 1) == x * PowNat(x, e);
    } else {
      var p := PowNat(x, -e - 1);
      assert PowNat(x, -e) == x * p;
      assert Pow(x, e + 1) == 1.0 / p by {
        if e == -1 {
          assert p == 1.0;
        }
      }
      ReciprocalStep(x, p);
    }
  }

  /** Multiplying the reciprocal of x * p by x leaves the reciprocal of p. */
  lemma ReciprocalStep(x: real, p: real)
    requires x > 0.0 && p > 0.0
    ensures (1.0 / (x * p)) * x == 1.0 / p
  {
    var q := x * p;
    var r := 1.0 / q;
    assert r * q == 1.0;
    assert (r * x) * p == 1.0;
  }

  /** The factor by which `ups` multiplications by u after `downs`
      divisions by u scale a value. */
  function MovePower(u: real, ups: nat, downs: nat): (r: real)
    requires u > 0.0
    ensures r > 0.0
    decreases ups, downs
  {
    if ups > 0 then
      var before := MovePower(u, ups - 1, downs);
      SignUnderPositiveScale(before, u);
      before * u
    else if downs > 0 then
      var before := MovePower(u, 0, downs - 1);
      SignUnderPositiveScale(before, 1.0 / u);
      before * (1.0 / u)
    else
      1.0
  }

  /** A last up move raises the power by one. */
  lemma MoveUp(u: real, ups: nat, downs: nat)
    requires u > 0.0 && ups > 0
    requires Pow(u, (ups - 1) - downs) == MovePower(u, ups - 1, downs)
    ensures Pow(u, ups - downs) == MovePower(u, ups, downs)
  {
    var e: int := (ups - 1) - downs;
    PowSucc(u, e);
  }

  /** A last down move, after no up move, lowers the power by one. */
  lemma MoveDown(u: real, downs: nat)
    requires u > 0.0 && downs > 0
    requires Pow(u, 0 - (downs - 1)) == MovePower(u, 0, downs - 1)
    ensures Pow(u, 0 - downs) == MovePower(u, 0, downs)
  {
    var e: int := 0 - downs;
    PowSucc(u, e);
    DivideOut(Pow(u, e), Pow(u, e + 1), u);
  }

  /** Moving up `ups` times and down `downs` times scales by u^(ups - downs),
      whatever the number of moves. */
  lemma {:induction false} PowByMoves(u: real, ups: nat, downs: nat)
    requires u > 0.0
    ensures Pow(u, ups - downs) == MovePower(u, ups, downs)
    decreases ups, downs
  {
    if ups > 0 {
      PowByMoves(u, ups - 1, downs);
      MoveUp(u, ups, downs);
    } else if downs > 0 {
      PowByMoves(u, 0, downs - 1);
      MoveDown(u, downs);
    } else {
      assert Pow(u, 0) == 1.0;
    }
  }

  /** Multiplying by a non-negative factor keeps an inequality. */
  lemma MulMonotone(a: real, x: real, y: real)
    requires a >= 0.0 && x <= y
    ensures a * x <= a * y
  {
    assert a * y - a * x == a * (y - x);
  }

  /** A product is negative exactly when its factors have opposite signs. */
  lemma ProductSign(x: real, y: real)
    ensures x * y < 0.0 <==> (x < 0.0 && y > 0.0) || (x > 0.0 && y < 0.0)
  {
    if x < 0.0 && y > 0.0 {
      MulMonotone(y, x, 0.0);
    } else if x > 0.0 && y < 0.0 {
      MulMonotone(x, y, 0.0);
    } else if x >= 0.0 && y >= 0.0 {
      MulMonotone(x, 0.0, y);
    } else {
      MulMonotone(-x, 0.0, -y);
    }
  }

  /** Scaling by a positive factor keeps the sign. */
  lemma SignUnderPositiveScale(x: real, w: real)
    requires w > 0.0
    ensures x * w < 0.0 <==> x < 0.0
    ensures x * w > 0.0 <==> x > 0.0
  {
    ProductSign(x, w);
    ProductSign(-x, w);
  }

  /** Adding two inequalities. */
  lemma AddMonotone(x: real, x': real, y: real, y': real)
    requires x <= x' && y <= y'
    ensures x + y <= x' + y'
  {
  }

  /** Dividing a product identity by a positive factor. */
  lemma DivideOut(a: real, b: real, f: real)
    requires f > 0.0 && a * f == b
    ensures a == b * (1.0 / f)
  {
  }

  /** Scaling both sides of a product identity by the same factor. */
  lemma ScaleProduct(s: real, a: real, b: real, f: real)
    requires a == b * f
    ensures s * a == (s * b) * f
  {
  }

  /** A positive number equals its reciprocal only when it is one. */
  lemma SelfReciprocal(x: real)
    requires x > 0.0
    ensures x == 1.0 / x <==> x == 1.0
  {
    if x == 1.0 / x {
      assert x * x == 1.0;
      if x > 1.0 {
        MulMonotone(x, 1.0, x);
      } else if x < 1.0 {
        MulMonotone(x, x, 1.0);
      }
    }
  }

  /** With the weight p = (g - d) / (u - d) on u and 1 - p on d, the
      weighted average of u and d is g. */
  lemma WeightedAverage(u: real, d: real, g: real)
    requires u != d
    ensures var p := (g - d) / (u - d); p * u + (1.0 - p) * d == g
  {
    var p := (g - d) / (u - d);
    assert p * (u - d) == g - d;
    assert p * u + (1.0 - p) * d == d + p * (u - d);
  }

  /** For u > d the weight (g - d) / (u - d) is a probability exactly when
      g lies between d and u. */
  lemma WeightBounds(u: real, d: real, g: real)
    requires u > d
    ensures var p := (g - d) / (u - d); (0.0 <= p <= 1.0 <==> d <= g <= u)
  {
    var w := u - d;
    var p := (g - d) / w;
    assert p * w == g - d;
    assert (p - 1.0) * w == g - u;
    SignUnderPositiveScale(p, w);
    SignUnderPositiveScale(p - 1.0, w);
  }
}
