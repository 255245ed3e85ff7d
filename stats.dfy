/**
 * The array arithmetic the heart-rate-variability analysis uses, over
 * exact reals: successive differences (`np.diff`), sums and means, the
 * population variance behind `np.std`, and the mean of squares.
 */
module Stats {

  /** Successive differences: element i is xs[i+1] - xs[i]. */
  function Diff(xs: seq<real>): (d: seq<real>)
    ensures |d| == if |xs| == 0 then 0 else |xs| - 1
    ensures forall i :: 0 <= i < |d| ==> d[i] == xs[i + 1] - xs[i]
  {
    if |xs| < 2 then [] else [xs[1] - xs[0]] + Diff(xs[1..])
  }

  /** The running totals of `ds` starting from `start`: the inverse of Diff. */
  function Accumulate(start: real, ds: seq<real>): (xs: seq<real>)
    decreases |ds|
    ensures |xs| == |ds| + 1 && xs[0] == start
  {
    if ds == [] then [start] else [start] + Accumulate(start + ds[0], ds[1..])
  }

  function Sum(xs: seq<real>): (r: real)
  {
    if xs == [] then 0.0 else xs[0] + Sum(xs[1..])
  }

  function Mean(xs: seq<real>): (r: real)
    requires |xs| > 0
  {
    Sum(xs) / (|xs| as real)
  }

  function Product(a: real, b: real): real {
    a * b
  }

  /** a^2, written through Product so that its sign is argued about two
      factors (see SquarePositive). */
  function Square(a: real): real {
    Product(a, a)
  }

  /** (x - c)^2 for every element x. */
  function SquaredDeviations(xs: seq<real>, c: real): (r: seq<real>)
    ensures |r| == |xs|
  {
    seq(|xs|, i requires 0 <= i < |xs| => Square(xs[i] - c))
  }

  /** The population variance (divisor n), the square of `np.std`. */
  function Variance(xs: seq<real>): (r: real)
    requires |xs| > 0
    ensures r >= 0.0
  {
    var sq := SquaredDeviations(xs, Mean(xs));
    SquaredDeviationsNonNegative(xs, Mean(xs));
    MeanNonNegative(sq);
    Mean(sq)
  }

  /** The mean of the squares, `np.mean(xs**2)`. */
  function MeanSquare(xs: seq<real>): (r: real)
    requires |xs| > 0
    ensures r >= 0.0
  {
    var sq := SquaredDeviations(xs, 0.0);
    SquaredDeviationsNonNegative(xs, 0.0);
    MeanNonNegative(sq);
    Mean(sq)
  }

  function Reverse(xs: seq<real>): (r: seq<real>)
  {
    seq(|xs|, i requires 0 <= i < |xs| => xs[|xs| - 1 - i])
  }

  function Negate(xs: seq<real>): (r: seq<real>)
  {
    seq(|xs|, i requires 0 <= i < |xs| => -xs[i])
  }

  predicate Constant(xs: seq<real>) {
    forall i, j :: 0 <= i < |xs| && 0 <= j < |xs| ==> xs[i] == xs[j]
  }

  predicate AllZero(xs: seq<real>) {
    forall i :: 0 <= i < |xs| ==> xs[i] == 0.0
  }

  predicate NonDecreasing(xs: seq<real>) {
    forall i, j :: 0 <= i <= j < |xs| ==> xs[i] <= xs[j]
  }

  lemma NegateNegate(xs: seq<real>)
    ensures Negate(Negate(xs)) == xs
  {
    assert forall i :: 0 <= i < |xs| ==> Negate(Negate(xs))[i] == xs[i];
  }

  // ---------------------------------------------------------------------
  // Sums

  lemma {:induction false} SumAppend(a: seq<real>, b: seq<real>)
    ensures Sum(a + b) == Sum(a) + Sum(b)
  {
    if a == [] {
      assert a + b == b;
    } else {
      assert (a + b)[1..] == a[1..] + b;
      SumAppend(a[1..], b);
    }
  }

  lemma {:induction false} SumNonNegative(xs: seq<real>)
    requires forall i :: 0 <= i < |xs| ==> xs[i] >= 0.0
    ensures Sum(xs) >= 0.0
  {
    if xs != [] {
      SumNonNegative(xs[1..]);
    }
  }

  /** A sum of non-negative terms is zero exactly when every term is. */
  lemma {:induction false} SumZeroIff(xs: seq<real>)
    requires forall i :: 0 <= i < |xs| ==> xs[i] >= 0.0
    ensures Sum(xs) == 0.0 <==> forall i :: 0 <= i < |xs| ==> xs[i] == 0.0
  {
    if xs != [] {
      SumNonNegative(xs[1..]);
      SumZeroIff(xs[1..]);
      assert forall i :: 1 <= i < |xs| ==> xs[i] == xs[1..][i - 1];
    }
  }

  lemma {:induction false} SumConstant(xs: seq<real>, c: real)
    requires forall i :: 0 <= i < |xs| ==> xs[i] == c
    ensures Sum(xs) == (|xs| as real) * c
  {
    if xs != [] {
      SumConstant(xs[1..], c);
    }
  }

  lemma {:induction false} SumReverse(xs: seq<real>)
    ensures Sum(Reverse(xs)) == Sum(xs)
  {
    if xs != [] {
      assert Reverse(xs) == Reverse(xs[1..]) + [xs[0]];
      SumAppend(Reverse(xs[1..]), [xs[0]]);
      SumReverse(xs[1..]);
      assert Sum([xs[0]]) == xs[0] + Sum([]);
    }
  }

  lemma {:induction false} SumNegate(xs: seq<real>)
    ensures Sum(Negate(xs)) == -Sum(xs)
  {
    if xs != [] {
      assert Negate(xs)[1..] == Negate(xs[1..]);
      SumNegate(xs[1..]);
    }
  }

  // ---------------------------------------------------------------------
  // Differences

  /** Differencing the running totals gives back the increments. */
  lemma {:induction false} DiffAccumulate(start: real, ds: seq<real>)
    decreases |ds|
    ensures Diff(Accumulate(start, ds)) == ds
  {
    if ds != [] {
      DiffAccumulate(start + ds[0], ds[1..]);
      var xs := Accumulate(start, ds);
      assert xs[1..] == Accumulate(start + ds[0], ds[1..]);
    }
  }

  /** Accumulating the differences from the first element rebuilds the
      sequence: nothing is lost but the starting point. */
  lemma {:induction false} AccumulateDiff(xs: seq<real>)
    requires |xs| > 0
    ensures Accumulate(xs[0], Diff(xs)) == xs
  {
    if |xs| >= 2 {
      AccumulateDiff(xs[1..]);
      assert Diff(xs)[1..] == Diff(xs[1..]);
      assert xs[0] + Diff(xs)[0] == xs[1];
      assert xs == [xs[0]] + xs[1..];
    }
  }

  /** The differences of a non-decreasing sequence are all non-negative. */
  lemma DiffNonNegative(xs: seq<real>)
    requires NonDecreasing(xs)
    ensures forall i :: 0 <= i < |Diff(xs)| ==> Diff(xs)[i] >= 0.0
  {
    forall i | 0 <= i < |Diff(xs)|
      ensures Diff(xs)[i] >= 0.0
    {
      assert xs[i] <= xs[i + 1];
    }
  }

  /** The differences telescope: they add up to last minus first. */
  lemma {:induction false} SumDiff(xs: seq<real>)
    requires |xs| > 0
    ensures Sum(Diff(xs)) == xs[|xs| - 1] - xs[0]
  {
    if |xs| >= 2 {
      SumDiff(xs[1..]);
      assert Diff(xs)[1..] == Diff(xs[1..]);
    }
  }

  /** All differences vanish exactly when the sequence is constant. */
  lemma {:induction false} DiffZeroIff(xs: seq<real>)
    ensures AllZero(Diff(xs)) <==> Constant(xs)
  {
    if |xs| >= 2 {
      DiffZeroIff(xs[1..]);
      assert Diff(xs)[1..] == Diff(xs[1..]);
      if forall i :: 0 <= i < |Diff(xs)| ==> Diff(xs)[i] == 0.0 {
        assert forall i :: 0 <= i < |Diff(xs[1..])| ==> Diff(xs[1..])[i] == 0.0 by {
          forall i | 0 <= i < |Diff(xs[1..])| ensures Diff(xs[1..])[i] == 0.0 {
            assert Diff(xs[1..])[i] == Diff(xs)[i + 1];
          }
        }
        assert Constant(xs[1..]);
        assert xs[0] == xs[1];
        forall i, j | 0 <= i < |xs| && 0 <= j < |xs| ensures xs[i] == xs[j] {
          assert i == 0 || xs[i] == xs[1..][i - 1];
          assert j == 0 || xs[j] == xs[1..][j - 1];
          assert xs[1..][0] == xs[1];
        }
      }
      if Constant(xs) {
        forall i | 0 <= i < |Diff(xs)| ensures Diff(xs)[i] == 0.0 {
          assert xs[i + 1] == xs[i];
        }
      }
    }
  }

  /** Reversing a sequence reverses and negates its differences. */
  lemma DiffReverse(xs: seq<real>)
    ensures Diff(Reverse(xs)) == Reverse(Negate(Diff(xs)))
  {
    var n := |xs|;
    var rx := Reverse(xs);
    var dx := Diff(xs);
    var d, r := Diff(rx), Reverse(Negate(dx));
    assert |d| == |r|;
    forall i | 0 <= i < |d| ensures d[i] == r[i] {
      assert d[i] == rx[i + 1] - rx[i];
      assert rx[i] == xs[n - 1 - i] && rx[i + 1] == xs[n - 2 - i];
      assert r[i] == Negate(dx)[n - 2 - i] == -dx[n - 2 - i];
      assert dx[n - 2 - i] == xs[n - 1 - i] - xs[n - 2 - i];
    }
  }

  lemma DiffNegate(xs: seq<real>)
    ensures Diff(Negate(xs)) == Negate(Diff(xs))
  {
    var d, r := Diff(Negate(xs)), Negate(Diff(xs));
    assert |d| == |r|;
    forall i | 0 <= i < |d| ensures d[i] == r[i] {
      assert Negate(xs)[i] == -xs[i] && Negate(xs)[i + 1] == -xs[i + 1];
    }
  }

  // ---------------------------------------------------------------------
  // Variance and mean square

  /** The mean of a constant sequence is that constant. */
  lemma MeanConstant(xs: seq<real>, c: real)
    requires |xs| > 0
    requires forall i :: 0 <= i < |xs| ==> xs[i] == c
    ensures Mean(xs) == c
  {
    SumConstant(xs, c);
    var n := |xs| as real;
    assert Sum(xs) == n * c;
    assert (n * c) / n == c;
  }

  lemma ProductPositive(a: real, b: real)
    requires a > 0.0 && b > 0.0
    ensures Product(a, b) > 0.0
  {
  }

  /** The square of a non-zero number is positive. */
  lemma SquarePositive(a: real)
    requires a != 0.0
    ensures Square(a) > 0.0
  {
    if a < 0.0 {
      ProductPositive(-a, -a);
      assert Square(-a) == Square(a);
    } else {
      ProductPositive(a, a);
    }
  }

  /** Squaring is strictly increasing on the non-negative numbers. */
  lemma SquareStrictlyIncreasing(a: real, b: real)
    requires 0.0 <= a < b
    ensures Square(a) < Square(b)
  {
    ProductPositive(b - a, b + a);
    assert Product(b - a, b + a) == Square(b) - Square(a);
  }

  lemma SquaredDeviationsNonNegative(xs: seq<real>, c: real)
    ensures forall i :: 0 <= i < |xs| ==> SquaredDeviations(xs, c)[i] >= 0.0
  {
    forall i | 0 <= i < |xs| ensures SquaredDeviations(xs, c)[i] >= 0.0 {
      if xs[i] != c { SquaredDeviationPositive(xs, c, i); }
    }
  }

  lemma SquaredDeviationPositive(xs: seq<real>, c: real, k: int)
    requires 0 <= k < |xs| && xs[k] != c
    ensures SquaredDeviations(xs, c)[k] > 0.0
  {
    SquarePositive(xs[k] - c);
  }

  /** A sum of non-negative terms with one positive term is positive. */
  lemma {:induction false} SumPositive(xs: seq<real>, k: int)
    requires forall i :: 0 <= i < |xs| ==> xs[i] >= 0.0
    requires 0 <= k < |xs| && xs[k] > 0.0
    ensures Sum(xs) > 0.0
  {
    if k == 0 {
      SumNonNegative(xs[1..]);
    } else {
      SumPositive(xs[1..], k - 1);
    }
  }

  lemma MeanNonNegative(xs: seq<real>)
    requires |xs| > 0
    requires forall i :: 0 <= i < |xs| ==> xs[i] >= 0.0
    ensures Mean(xs) >= 0.0
  {
    SumNonNegative(xs);
  }

  /** The population variance is zero exactly when all values are equal. */
  lemma VarianceZeroIff(xs: seq<real>)
    requires |xs| > 0
    ensures Variance(xs) == 0.0 <==> Constant(xs)
  {
    var m := Mean(xs);
    var sq := SquaredDeviations(xs, m);
    SquaredDeviationsNonNegative(xs, m);
    if Constant(xs) {
      MeanConstant(xs, xs[0]);
      forall i | 0 <= i < |xs| ensures sq[i] == 0.0 {
        assert xs[i] - m == 0.0;
      }
      SumConstant(sq, 0.0);
    } else if forall i :: 0 <= i < |xs| ==> xs[i] == m {
      assert Constant(xs);
    } else {
      var k :| 0 <= k < |xs| && xs[k] != m;
      SquaredDeviationPositive(xs, m, k);
      SumPositive(sq, k);
    }
  }

  /** The mean square is zero exactly when every value is zero. */
  lemma MeanSquareZeroIff(xs: seq<real>)
    requires |xs| > 0
    ensures MeanSquare(xs) == 0.0 <==> AllZero(xs)
  {
    var sq := SquaredDeviations(xs, 0.0);
    SquaredDeviationsNonNegative(xs, 0.0);
    if forall i :: 0 <= i < |xs| ==> xs[i] == 0.0 {
      assert forall i :: 0 <= i < |xs| ==> sq[i] == 0.0;
      SumConstant(sq, 0.0);
    } else {
      var k :| 0 <= k < |xs| && xs[k] != 0.0;
      SquaredDeviationPositive(xs, 0.0, k);
      SumPositive(sq, k);
    }
  }

  /** The variance does not depend on the order of the values. */
  lemma VarianceReverse(xs: seq<real>)
    requires |xs| > 0
    ensures Variance(Reverse(xs)) == Variance(xs)
  {
    SumReverse(xs);
    var m := Mean(xs);
    assert Mean(Reverse(xs)) == m;
    var sq := SquaredDeviations(xs, m);
    var sq' := SquaredDeviations(Reverse(xs), m);
    forall i | 0 <= i < |xs| ensures sq'[i] == Reverse(sq)[i] {
      assert Reverse(xs)[i] == xs[|xs| - 1 - i];
    }
    assert sq' == Reverse(sq);
    SumReverse(sq);
  }

  /** Negating every value leaves the variance unchanged. */
  lemma VarianceNegate(xs: seq<real>)
    requires |xs| > 0
    ensures Variance(Negate(xs)) == Variance(xs)
  {
    SumNegate(xs);
    var m := Mean(xs);
    assert Mean(Negate(xs)) == -m;
    var sq := SquaredDeviations(xs, m);
    var sq' := SquaredDeviations(Negate(xs), -m);
    forall i | 0 <= i < |xs| ensures sq'[i] == sq[i] {
      assert Negate(xs)[i] - -m == -(xs[i] - m);
      assert Square(-(xs[i] - m)) == Square(xs[i] - m);
    }
    assert sq' == sq;
  }

  /** The mean square does not depend on order or sign. */
  lemma MeanSquareReverseNegate(xs: seq<real>)
    requires |xs| > 0
    ensures MeanSquare(Reverse(Negate(xs))) == MeanSquare(xs)
  {
    var sq := SquaredDeviations(xs, 0.0);
    var sq' := SquaredDeviations(Reverse(Negate(xs)), 0.0);
    forall i | 0 <= i < |xs| ensures sq'[i] == Reverse(sq)[i] {
      var x := xs[|xs| - 1 - i];
      assert Reverse(Negate(xs))[i] == -x;
      assert Square(-x - 0.0) == Square(x - 0.0);
    }
    assert sq' == Reverse(sq);
    SumReverse(sq);
  }

  /** The mean square does not depend on sign. */
  lemma MeanSquareNegate(xs: seq<real>)
    requires |xs| > 0
    ensures MeanSquare(Negate(xs)) == MeanSquare(xs)
  {
    var sq := SquaredDeviations(xs, 0.0);
    var sq' := SquaredDeviations(Negate(xs), 0.0);
    forall i | 0 <= i < |xs| ensures sq'[i] == sq[i] {
      assert Negate(xs)[i] - 0.0 == -(xs[i] - 0.0);
      assert Square(-(xs[i] - 0.0)) == Square(xs[i] - 0.0);
    }
    assert sq' == sq;
  }
}
