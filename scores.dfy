// The expected-value arithmetic shared by the two report validators
// (validate_single_report.py and validate_reports_detailed.py
// get_expected_values): pillar means over the present sub-scores, the
// overall mean over the present pillar means, the truthiness test that
// turns a zero average into "absent", and the tolerance comparison.
module Scores {
  import opened Wrappers

  /** The five sub-scores (r, c, f, v, a) of each of the three pillars; None is a missing cell. */
  datatype Pillars = Pillars(up: seq<Option<real>>, internal: seq<Option<real>>, down: seq<Option<real>>)

  /** The present values, in order. */
  function Present(xs: seq<Option<real>>): (r: seq<real>)
    ensures |r| <= |xs|
    ensures r == [] <==> forall i :: 0 <= i < |xs| ==> xs[i].None?
  {
    if xs == [] then []
    else
      var init := Present(xs[..|xs| - 1]);
      assert forall i :: 0 <= i < |xs| - 1 ==> xs[..|xs| - 1][i] == xs[i];
      match xs[|xs| - 1]
      case Some(v) => init + [v]
      case None => init
  }

  function Sum(xs: seq<real>): real
  {
    if xs == [] then 0.0 else Sum(xs[..|xs| - 1]) + xs[|xs| - 1]
  }

  /**
   * sum(valid) / len(valid) if valid else None: absent exactly when no
   * value is present; otherwise the value whose count-fold is the sum.
   */
  function Mean(xs: seq<Option<real>>): (r: Option<real>)
    ensures r.None? <==> forall i :: 0 <= i < |xs| ==> xs[i].None?
    ensures r.Some? ==> r.value * (|Present(xs)| as real) == Sum(Present(xs))
  {
    var p := Present(xs);
    if p == [] then None
    else
      var n := |p| as real;
      assert (Sum(p) / n) * n == Sum(p);
      Some(Sum(p) / n)
  }

  /** Every present value lies in [lo, hi]. */
  predicate AllWithin(xs: seq<Option<real>>, lo: real, hi: real)
  {
    forall i :: 0 <= i < |xs| ==> xs[i].Some? ==> lo <= xs[i].value <= hi
  }

  lemma {:induction false} PresentWithin(xs: seq<Option<real>>, lo: real, hi: real)
    requires AllWithin(xs, lo, hi)
    ensures forall k :: 0 <= k < |Present(xs)| ==> lo <= Present(xs)[k] <= hi
  {
    if xs != [] {
      PresentWithin(xs[..|xs| - 1], lo, hi);
    }
  }

  lemma {:induction false} SumWithin(ys: seq<real>, lo: real, hi: real)
    requires forall k :: 0 <= k < |ys| ==> lo <= ys[k] <= hi
    ensures lo * (|ys| as real) <= Sum(ys) <= hi * (|ys| as real)
  {
    if ys != [] {
      SumWithin(ys[..|ys| - 1], lo, hi);
      assert lo * ((|ys| - 1) as real) + lo == lo * (|ys| as real);
      assert hi * ((|ys| - 1) as real) + hi == hi * (|ys| as real);
    }
  }

  /** Multiplying by a positive number keeps the order. */
  lemma ScaleKeepsOrder(x: real, c: real, n: real, xn: real, cn: real)
    requires n > 0.0 && xn == x * n && cn == c * n
    ensures x >= c <==> xn >= cn
  {
    if x >= c {
      assert (x - c) * n >= 0.0;
    } else {
      assert (c - x) * n > 0.0;
    }
  }

  /** Division by a positive count keeps a bound on the total. */
  lemma QuotientWithin(s: real, n: real, m: real, lo: real, hi: real)
    requires n > 0.0 && m * n == s && lo * n <= s <= hi * n
    ensures lo <= m <= hi
  {
    ScaleKeepsOrder(m, lo, n, s, lo * n);
    ScaleKeepsOrder(hi, m, n, hi * n, s);
  }

  /** A mean of values in [lo, hi] lies in [lo, hi]; with scores in [0, 5] so do the averages. */
  lemma MeanWithin(xs: seq<Option<real>>, lo: real, hi: real)
    requires AllWithin(xs, lo, hi)
    ensures Mean(xs).Some? ==> lo <= Mean(xs).value <= hi
  {
    if Mean(xs).Some? {
      var p := Present(xs);
      PresentWithin(xs, lo, hi);
      SumWithin(p, lo, hi);
      QuotientWithin(Sum(p), |p| as real, Mean(xs).value, lo, hi);
    }
  }

  /** The sum of n copies of c. */
  lemma {:induction false} SumOfCopies(ys: seq<real>, c: real)
    requires forall k :: 0 <= k < |ys| ==> ys[k] == c
    ensures Sum(ys) == c * (|ys| as real)
  {
    if ys != [] {
      SumOfCopies(ys[..|ys| - 1], c);
      assert c * ((|ys| - 1) as real) + c == c * (|ys| as real);
    }
  }

  /** When every present value equals c, the mean is c. */
  lemma MeanOfEqualValues(xs: seq<Option<real>>, c: real)
    requires exists i :: 0 <= i < |xs| && xs[i].Some?
    requires forall i :: 0 <= i < |xs| ==> xs[i].Some? ==> xs[i].value == c
    ensures Mean(xs) == Some(c)
  {
    var p := Present(xs);
    PresentWithin(xs, c, c);
    SumOfCopies(p, c);
    QuotientWithin(Sum(p), |p| as real, Mean(xs).value, c, c);
  }

  /**
   * round(avg, 2) if avg else None: a zero average is falsy and is
   * reported as absent. The rounding is not modelled.
   */
  function Reported(avg: Option<real>): (r: Option<real>)
    ensures r.Some? ==> r == avg && r.value != 0.0
    ensures avg.Some? && avg.value != 0.0 ==> r == avg
  {
    if avg.Some? && avg.value != 0.0 then avg else None
  }

  /** The four reported expected values. */
  datatype Averages = Averages(up: Option<real>, internal: Option<real>, down: Option<real>, overall: Option<real>)

  /** The three unrounded pillar means. */
  function PillarMeans(p: Pillars): seq<Option<real>>
  {
    [Mean(p.up), Mean(p.internal), Mean(p.down)]
  }

  /**
   * get_expected_values: each pillar's mean reported through the
   * truthiness test, and the overall mean taken over the UNROUNDED
   * pillar means that exist, zero ones included.
   */
  function ExpectedOf(p: Pillars): (e: Averages)
    ensures e.overall.None? <==> ((Mean(p.up).None? && Mean(p.internal).None? && Mean(p.down).None?)
                                  || Mean(PillarMeans(p)) == Some(0.0))
  {
    var ms := PillarMeans(p);
    assert ms[0] == Mean(p.up) && ms[1] == Mean(p.internal) && ms[2] == Mean(p.down);
    Averages(Reported(Mean(p.up)), Reported(Mean(p.internal)), Reported(Mean(p.down)), Reported(Mean(ms)))
  }

  /** With scores in [0, 5], every expected value lies in [0, 5] as well. */
  lemma ExpectedWithinScale(p: Pillars)
    requires AllWithin(p.up, 0.0, 5.0) && AllWithin(p.internal, 0.0, 5.0) && AllWithin(p.down, 0.0, 5.0)
    ensures var e := ExpectedOf(p);
            AllWithin([e.up, e.internal, e.down, e.overall], 0.0, 5.0)
  {
    MeanWithin(p.up, 0.0, 5.0);
    MeanWithin(p.internal, 0.0, 5.0);
    MeanWithin(p.down, 0.0, 5.0);
    MeanWithin(PillarMeans(p), 0.0, 5.0);
  }

  /**
   * The zero quirk: an upstream pillar scored all zeros is reported as
   * absent, yet its zero still pulls the overall mean down.
   */
  lemma ZeroPillarAbsentButAveraged()
    ensures var e := ExpectedOf(Pillars([Some(0.0)], [Some(3.0)], [None]));
            e.up.None? && e.internal == Some(3.0) && e.overall == Some(1.5)
  {
    var p := Pillars([Some(0.0)], [Some(3.0)], [None]);
    MeanOfOne(0.0);
    MeanOfOne(3.0);
    assert Mean(p.down).None?;
    assert PillarMeans(p) == [Some(0.0), Some(3.0), None];
    MeanOfZeroAndThree();
  }

  lemma MeanOfOne(x: real)
    ensures Mean([Some(x)]) == Some(x)
  {
    assert [Some(x)][..0] == [];
    assert Present([Some(x)]) == [x];
    assert [x][..0] == [];
    assert Sum([x]) == x;
  }

  lemma MeanOfZeroAndThree()
    ensures Mean([Some(0.0), Some(3.0), None]) == Some(1.5)
  {
    var ms := [Some(0.0), Some(3.0), None];
    assert ms[..2] == [Some(0.0), Some(3.0)];
    assert ms[..2][..1] == [Some(0.0)];
    assert ms[..2][..1][..0] == [];
    assert Present(ms) == [0.0, 3.0];
    assert [0.0, 3.0][..1] == [0.0];
    assert [0.0, 3.0][..1][..0] == [];
    assert Sum([0.0, 3.0]) == 3.0;
  }

  // ---------------------------------------------------------------
  // The tolerance comparison
  // ---------------------------------------------------------------

  const DefaultTolerance: real := 0.15

  function Abs(x: real): real { if x < 0.0 then -x else x }

  /**
   * The rule for a pillar average (both validators) and for the four
   * single-report fields: both present and within tolerance (inclusive),
   * or both absent.
   */
  predicate FieldMatch(expected: Option<real>, actual: Option<real>, tol: real)
  {
    if expected.Some? && actual.Some? then Abs(expected.value - actual.value) <= tol
    else expected.None? && actual.None?
  }

  /** The rule is symmetric, inclusive at the tolerance boundary, and fails just past it. */
  lemma FieldMatchBoundary(x: real, tol: real, d: real)
    requires tol >= 0.0 && d > 0.0
    ensures FieldMatch(Some(x), Some(x + tol), tol) && FieldMatch(Some(x), Some(x - tol), tol)
    ensures !FieldMatch(Some(x), Some(x + tol + d), tol) && !FieldMatch(Some(x), Some(x - tol - d), tol)
    ensures FieldMatch(None, None, tol) && !FieldMatch(Some(x), None, tol) && !FieldMatch(None, Some(x), tol)
  {
  }

  lemma FieldMatchSymmetric(a: Option<real>, b: Option<real>, tol: real)
    ensures FieldMatch(a, b, tol) <==> FieldMatch(b, a, tol)
  {
  }
}
