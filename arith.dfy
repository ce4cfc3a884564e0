/** Order facts about multiplication that the solver does not find by itself. */
module Arith {

  /** Multiplying by a positive factor keeps the order of two reals. */
  lemma ScaleMono(a: real, b: real, k: real)
    requires k > 0.0
    ensures a <= b <==> a * k <= b * k
    ensures a < b <==> a * k < b * k
  {
    if a <= b {
      assert (b - a) * k >= 0.0;
    } else {
      assert (a - b) * k > 0.0;
    }
  }

  /** Multiplying by a positive factor keeps the order of two naturals. */
  lemma NatScaleMono(a: nat, b: nat, k: nat)
    requires k > 0
    ensures a <= b <==> a * k <= b * k
  {
    if a <= b {
      assert (b - a) * k >= 0;
    } else {
      assert (a - b) * k > 0;
    }
  }

  /** Between non-negative reals, comparing squares compares the numbers. */
  lemma SquareMonotone(s: real, t: real)
    requires 0.0 <= s && 0.0 <= t
    ensures s * s <= t * t <==> s <= t
  {
    assert t * t - s * s == (t - s) * (t + s);
    if s <= t {
      assert (t - s) * (t + s) >= 0.0;
    } else {
      ScaleMono(0.0, s - t, t + s);
    }
  }

  /** A square is never negative. */
  lemma SquareNonNegative(s: real)
    ensures s * s >= 0.0
  {
    if s < 0.0 {
      ScaleMono(0.0, -s, -s);
      assert (-s) * (-s) == s * s;
    } else if s > 0.0 {
      ScaleMono(0.0, s, s);
    }
  }

  /** A point at least `da` away along one axis and at least `db` along the
      other is at least as far as the point (da, db). */
  lemma SumOfSquaresAbove(a: real, b: real, da: real, db: real)
    requires 0.0 <= da <= a && 0.0 <= db <= b
    ensures da * da + db * db <= a * a + b * b
  {
    SquareMonotone(da, a);
    SquareMonotone(db, b);
  }
}
