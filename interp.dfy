/** scipy's `interp1d` as the thermal model builds it: linear, `assume_sorted=True`,
    `fill_value=0.0` and no `bounds_error` argument. Because the fill value is a number,
    scipy then sets `bounds_error` to true, so a query outside the nodes raises instead of
    returning the fill value. */
module Interp {
  import opened Common
  import opened Search

  /** `x` lies on the closed interval spanned by the nodes. */
  predicate Covers(xs: seq<real>, x: real) {
    |xs| >= 1 && xs[0] <= x <= xs[|xs| - 1]
  }

  /** The lower node of the interval scipy's linear kind uses for `x`:
      `clip(searchsorted(xs, x), 1, n - 1) - 1`. */
  function Bracket(xs: seq<real>, x: real): (lo: nat)
    requires |xs| >= 2
    ensures lo + 1 < |xs|
  {
    var k := SearchLeft(xs, x);
    (if k < 1 then 1 else if k > |xs| - 1 then |xs| - 1 else k) - 1
  }

  /** A covered query lies between the two nodes of its interval. */
  lemma BracketEncloses(xs: seq<real>, x: real)
    requires |xs| >= 2 && StrictlyIncreasing(xs) && Covers(xs, x)
    ensures xs[Bracket(xs, x)] <= x <= xs[Bracket(xs, x) + 1]
  {
  }

  /** A linear interpolant along axis 0: node `xs[i]` carries the row `ys[i]`. */
  datatype Interp1d = Interp1d(xs: seq<real>, ys: Matrix) {

    /** What a successfully built interpolant satisfies. */
    predicate Valid() {
      |xs| >= 2 && |ys| == |xs| && Rectangular(ys) && StrictlyIncreasing(xs)
    }

    /** The interpolated row at `x`: scipy's `slope * (x - x_lo) + y_lo` on the interval
        chosen by `Bracket`. */
    function At(x: real): (r: Spectrum)
      requires Valid()
      ensures |r| == |ys[0]|
    {
      var lo := Bracket(xs, x);
      var xlo, xhi, ylo, yhi := xs[lo], xs[lo + 1], ys[lo], ys[lo + 1];
      seq(|ylo|, k requires 0 <= k < |ylo| => (yhi[k] - ylo[k]) / (xhi - xlo) * (x - xlo) + ylo[k])
    }

    /** Calling the interpolant on a vector of queries: every query must be covered,
        otherwise the whole call raises. */
    function Call(q: seq<real>): (r: Result<Matrix>)
      requires Valid()
      ensures r.Ok? <==> forall i :: 0 <= i < |q| ==> Covers(xs, q[i])
      ensures r.Ok? ==> |r.value| == |q| && forall i :: 0 <= i < |q| ==> r.value[i] == At(q[i])
    {
      if forall i :: 0 <= i < |q| ==> Covers(xs, q[i]) then
        Ok(seq(|q|, i requires 0 <= i < |q| => At(q[i])))
      else
        Err(OutOfInterpolationRange)
    }
  }

  /** Building an interpolant: scipy refuses fewer than two nodes and a value array whose
      length along the axis is not the node count. A ragged value array cannot be a numpy
      array at all, so it is refused here as a shape error too. */
  function MakeInterp1d(xs: seq<real>, ys: Matrix): (r: Result<Interp1d>)
    requires StrictlyIncreasing(xs)
    ensures r.Ok? <==> |xs| >= 2 && |ys| == |xs| && Rectangular(ys)
    ensures r.Ok? ==> r.value.Valid() && r.value.xs == xs && r.value.ys == ys
  {
    if |ys| != |xs| || |xs| < 2 || !Rectangular(ys) then Err(InvalidInterpolationTable)
    else Ok(Interp1d(xs, ys))
  }

  /** The interpolant reproduces the table at every node. */
  lemma AtNode(f: Interp1d, j: nat)
    requires f.Valid() && j < |f.xs|
    ensures f.At(f.xs[j]) == f.ys[j]
  {
    var xs, ys := f.xs, f.ys;
    var lo := Bracket(xs, xs[j]);
    SearchLeftAtNode(xs, j);
    assert lo == (if j == 0 then 0 else j - 1);
    var r := f.At(xs[j]);
    assert |ys[lo]| == |ys[j]| == |ys[lo + 1]|;
    forall k | 0 <= k < |r| ensures r[k] == ys[j][k] {
      var d := xs[lo + 1] - xs[lo];
      assert d > 0.0;
      if j == lo {
        assert r[k] == (ys[lo + 1][k] - ys[lo][k]) / d * 0.0 + ys[lo][k];
      } else {
        assert xs[j] - xs[lo] == d;
        assert r[k] == (ys[lo + 1][k] - ys[lo][k]) / d * d + ys[lo][k];
      }
    }
  }

  /** Between two nodes the interpolant is the convex combination of their rows with
      weight `t = (x - x_lo) / (x_hi - x_lo)` in `[0, 1]`. */
  lemma AtIsConvexCombination(f: Interp1d, x: real)
    requires f.Valid() && Covers(f.xs, x)
    ensures var lo := Bracket(f.xs, x);
            var t := (x - f.xs[lo]) / (f.xs[lo + 1] - f.xs[lo]);
            && 0.0 <= t <= 1.0
            && forall k :: 0 <= k < |f.At(x)| ==>
                 f.At(x)[k] == (1.0 - t) * f.ys[lo][k] + t * f.ys[lo + 1][k]
  {
    BracketWeight(f.xs, x);
    forall k | 0 <= k < |f.At(x)| {
      AtEntryConvex(f, x, k);
    }
  }

  /** The weight of the upper node lies in `[0, 1]`. */
  lemma BracketWeight(xs: seq<real>, x: real)
    requires |xs| >= 2 && StrictlyIncreasing(xs) && Covers(xs, x)
    ensures var lo := Bracket(xs, x);
            0.0 <= (x - xs[lo]) / (xs[lo + 1] - xs[lo]) <= 1.0
  {
    var lo := Bracket(xs, x);
    BracketEncloses(xs, x);
    UnitFraction(x - xs[lo], xs[lo + 1] - xs[lo]);
  }

  lemma AtEntryConvex(f: Interp1d, x: real, k: nat)
    requires f.Valid() && Covers(f.xs, x) && k < |f.ys[0]|
    ensures var lo := Bracket(f.xs, x);
            var t := (x - f.xs[lo]) / (f.xs[lo + 1] - f.xs[lo]);
            && k < |f.ys[lo]| && k < |f.ys[lo + 1]|
            && f.At(x)[k] == (1.0 - t) * f.ys[lo][k] + t * f.ys[lo + 1][k]
  {
    var lo := Bracket(f.xs, x);
    var a, b := f.ys[lo][k], f.ys[lo + 1][k];
    var d, e := f.xs[lo + 1] - f.xs[lo], x - f.xs[lo];
    assert d > 0.0 by { BracketEncloses(f.xs, x); }
    AtEntry(f, x, k);
    SlopeForm(a, b, d, e);
  }

  /** Entry `k` of the interpolated row, in scipy's slope form. */
  lemma AtEntry(f: Interp1d, x: real, k: nat)
    requires f.Valid() && k < |f.ys[0]|
    ensures var lo := Bracket(f.xs, x);
            && k < |f.ys[lo]| && k < |f.ys[lo + 1]|
            && f.At(x)[k] == (f.ys[lo + 1][k] - f.ys[lo][k]) / (f.xs[lo + 1] - f.xs[lo]) * (x - f.xs[lo]) + f.ys[lo][k]
  {
    var lo := Bracket(f.xs, x);
    assert |f.ys[lo]| == |f.ys[0]| == |f.ys[lo + 1]|;
  }

  /** `row` is, entry by entry, the blend `(1 - t) * a + t * b` of two rows. */
  predicate IsBlend(row: Spectrum, a: Spectrum, b: Spectrum, t: real)
  {
    |a| == |row| && |b| == |row| &&
    forall k :: 0 <= k < |row| ==> row[k] == (1.0 - t) * a[k] + t * b[k]
  }

  /** A row that is the convex combination of the bracketing rows with the interpolation
      weight is the interpolated row. */
  lemma AtFromBlend(f: Interp1d, x: real, row: Spectrum, lo: nat, t: real)
    requires f.Valid() && Covers(f.xs, x)
    requires lo == Bracket(f.xs, x) && t == (x - f.xs[lo]) / (f.xs[lo + 1] - f.xs[lo])
    requires |row| == |f.ys[0]| && IsBlend(row, f.ys[lo], f.ys[lo + 1], t)
    ensures f.At(x) == row
  {
    AtIsConvexCombination(f, x);
    var at := f.At(x);
    assert |at| == |row|;
    forall k | 0 <= k < |row| ensures at[k] == row[k] {
    }
  }

  lemma UnitFraction(e: real, d: real)
    requires 0.0 <= e <= d && d > 0.0
    ensures 0.0 <= e / d <= 1.0
  {
    var t := e / d;
    assert t * d == e;
    assert (1.0 - t) * d == d - e;
  }

  /** scipy's `slope * (x - x_lo) + y_lo` is the convex combination with `t = e / d`. */
  lemma SlopeForm(a: real, b: real, d: real, e: real)
    requires d != 0.0
    ensures (b - a) / d * e + a == (1.0 - e / d) * a + e / d * b
  {
    assert (b - a) / d * e == (b - a) * (e / d);
  }

  /** scipy's `interp1d(..., axis=1)` on a `(n_elements, n_nodes, n_bins)` array: one
      interpolant per element, all sharing the nodes. */
  datatype Interp1dStack = Interp1dStack(xs: seq<real>, ys: seq<Matrix>) {

    predicate Valid() {
      && |xs| >= 2 && StrictlyIncreasing(xs)
      && forall e :: 0 <= e < |ys| ==> |ys[e]| == |xs| && Rectangular(ys[e])
    }

    /** The interpolant of element `e`. */
    function Element(e: nat): (f: Interp1d)
      requires Valid() && e < |ys|
      ensures f.Valid() && f.xs == xs && f.ys == ys[e]
    {
      Interp1d(xs, ys[e])
    }

    /** Calling the stacked interpolant: the bounds check is on the shared nodes. */
    function Call(q: seq<real>): (r: Result<seq<Matrix>>)
      requires Valid()
      ensures r.Ok? <==> forall i :: 0 <= i < |q| ==> Covers(xs, q[i])
      ensures r.Ok? ==> |r.value| == |ys|
      ensures r.Ok? ==> forall e :: 0 <= e < |ys| ==>
                |r.value[e]| == |q| && forall i :: 0 <= i < |q| ==> r.value[e][i] == Element(e).At(q[i])
    {
      if forall i :: 0 <= i < |q| ==> Covers(xs, q[i]) then
        Ok(seq(|ys|, e requires 0 <= e < |ys| =>
          seq(|q|, i requires 0 <= i < |q| => Element(e).At(q[i]))))
      else
        Err(OutOfInterpolationRange)
    }
  }

  /** Building the stacked interpolant: at least two nodes, and every element carries
      one row per node. */
  function MakeInterp1dStack(xs: seq<real>, ys: seq<Matrix>): (r: Result<Interp1dStack>)
    requires StrictlyIncreasing(xs)
    ensures r.Ok? <==> |xs| >= 2 && forall e :: 0 <= e < |ys| ==> |ys[e]| == |xs| && Rectangular(ys[e])
    ensures r.Ok? ==> r.value.Valid() && r.value.xs == xs && r.value.ys == ys
  {
    if |xs| < 2 || exists e :: 0 <= e < |ys| && (|ys[e]| != |xs| || !Rectangular(ys[e])) then
      Err(InvalidInterpolationTable)
    else
      Ok(Interp1dStack(xs, ys))
  }
}
