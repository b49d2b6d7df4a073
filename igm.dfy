/** `IGMSpectralModel` (pyxsim/spectral_models.py): emission of the intergalactic medium
    tabulated on a 2-D grid of log temperature and log hydrogen density. Points inside
    the table are interpolated bilinearly in the grid cell that holds them and divided by
    the density; points outside fall back to a thermal APEC model. */
module Igm {
  import opened Common
  import opened Search
  import opened Interp
  import opened Apec
  import opened Masks

  /** The `1.0e-14` normalisation applied to the IGM tables. */
  const TableNorm: real := 0.00000000000001

  /** The numeric helpers the model relies on but does not define: `np.log10`, `10**x`
      and the Kelvin-per-keV constant. The model assumes that `10**x` is positive and
      undone by `log10`, that `log10` is strictly increasing on the positive reals, and
      that the constant is positive. */
  datatype Conversions = Conversions(log10: real -> real, exp10: real -> real, kPerKeV: real) {
    function Log10(x: real): real { log10(x) }
    function Exp10(x: real): real { exp10(x) }

    ghost predicate Valid() {
      && kPerKeV > 0.0
      && (forall x :: Exp10(x) > 0.0)
      && (forall x :: Log10(Exp10(x)) == x)
      && (forall x, y :: 0.0 < x < y ==> Log10(x) < Log10(y))
    }
  }

  /** What `_get_energies(zobs)` returns: the energy indices into the table, the bin count,
      the bin edges, the bin centres and the bin widths. */
  datatype EnergyGrid = EnergyGrid(eidxs: seq<int>, ne: nat, ebins: seq<real>, emid: seq<real>, de: seq<real>)

  /** The two axes of the IGM table (log10 K and log10 cm^-3) with their interval widths. */
  datatype Grid = Grid(Tvals: seq<real>, Dvals: seq<real>, dTvals: seq<real>, dDvals: seq<real>) {
    predicate Valid() {
      && |Tvals| >= 1 && |Dvals| >= 1
      && StrictlyIncreasing(Tvals) && StrictlyIncreasing(Dvals)
      && dTvals == Diff(Tvals) && dDvals == Diff(Dvals)
    }
  }

  /** What the model uses of soxs's `IGMGenerator`: the axes, the number of variable
      elements, the energy grid, the table lookup `_get_table(ne, eidxs, zobs)` (one row per
      grid point, density-major), and the `ApecGenerator` that a `TableApecModel` built
      for the energy range `(emin, emax, nbins)` would use. */
  datatype IgmGenerator = IgmGenerator(
    Tvals: seq<real>,
    Dvals: seq<real>,
    dTvals: seq<real>,
    dDvals: seq<real>,
    nvarElem: nat,
    getEnergies: real -> EnergyGrid,
    getTable: (nat, seq<int>, real) -> Components,
    apecGenerator: (real, real, nat) -> ApecGenerator)
  {
    function Axes(): Grid {
      Grid(Tvals, Dvals, dTvals, dDvals)
    }

    function Energies(z: real): EnergyGrid { getEnergies(z) }
    function Table(n: nat, idx: seq<int>, z: real): Components { getTable(n, idx, z) }
    function Apec(a: real, b: real, n: nat): ApecGenerator { apecGenerator(a, b, n) }

    /** The loader's promise: valid axes, a non-empty energy grid, tables with one row per
        grid point, `n` entries per row for `n` energy bins and `nvarElem` variable
        elements, and APEC generators for `n` bins whose axes increase and whose table
        rows have `n` entries. */
    ghost predicate Valid() {
      && Axes().Valid()
      && (forall z :: |Energies(z).ebins| >= 1)
      && (forall n, idx, z :: TableShaped(Table(n, idx, z), |Dvals| * |Tvals|))
      && (forall n, idx, z :: TableWidth(Table(n, idx, z), n))
      && (forall n, idx, z :: Table(n, idx, z).variable.Some? ==>
            |Table(n, idx, z).variable.value| == nvarElem)
      && (forall a, b, n :: StrictlyIncreasing(Apec(a, b, n).Tvals))
      && (forall a, b, n, idx, z :: TableWidth(Apec(a, b, n).Table(idx, z), n))
    }

    /** Every table the loader hands out has one row per grid point and `nvarElem`
        variable elements. */
    lemma TableLoads(n: nat, idx: seq<int>, z: real)
      requires Valid()
      ensures TableShaped(Table(n, idx, z), |Dvals| * |Tvals|) && TableWidth(Table(n, idx, z), n)
      ensures Table(n, idx, z).variable.Some? ==> |Table(n, idx, z).variable.value| == nvarElem
    {
    }

    /** Every APEC generator the loader hands out has increasing temperature nodes. */
    lemma ApecAxesIncrease(a: real, b: real, n: nat)
      requires Valid()
      ensures StrictlyIncreasing(Apec(a, b, n).Tvals)
    {
    }

    /** The thermal tables for `n` energy bins have `n` entries per row. */
    lemma ApecTableWidth(a: real, b: real, n: nat, idx: seq<int>, z: real)
      requires Valid()
      ensures TableWidth(Apec(a, b, n).Table(idx, z), n)
    {
    }
  }

  lemma RavelBounds(d: nat, t: nat, nD: nat, nT: nat)
    requires d < nD && t < nT
    ensures d * nT + t < nD * nT
  {
    NonPositiveProduct(d + 1 - nD, nT);
  }

  /** `np.ravel_multi_index((d, t), (nD, nT))` in its default mode: a coordinate outside
      the grid raises, an inside one gets its row-major flat index. */
  function RavelIndex(d: int, t: int, nD: nat, nT: nat): (r: Option<nat>)
    ensures r.Some? <==> 0 <= d < nD && 0 <= t < nT
    ensures r.Some? ==> r.value < nD * nT
  {
    if 0 <= d < nD && 0 <= t < nT then
      RavelBounds(d, t, nD, nT);
      Some(d * nT + t)
    else None
  }

  /** The flat index unravels to the coordinate it came from, so distinct grid points
      never share a table row. */
  lemma UnravelRavel(d: nat, t: nat, nD: nat, nT: nat)
    requires d < nD && t < nT
    ensures RavelIndex(d, t, nD, nT).value / nT == d
    ensures RavelIndex(d, t, nD, nT).value % nT == t
  {
    var f: int := d * nT + t;
    var q: int, m: int := f / nT, f % nT;
    assert q * nT + m == f && 0 <= m < nT;
    MulCancel(q, d, nT);
    MulCancel(d, q, nT);
  }

  lemma MulCancel(a: int, b: int, n: int)
    requires n > 0 && a * n < b * n + n
    ensures a <= b
  {
    assert (b + 1 - a) * n > 0;
    NonPositiveProduct(b + 1 - a, n);
  }

  lemma NonPositiveProduct(x: int, n: int)
    requires n > 0
    ensures x <= 0 ==> x * n <= 0
  {
  }

  /** The flat indices `idx1 .. idx4` of `_get_spectrum_2d` for the cell whose lower
      corner is `(d, t)`: upper-upper, upper-lower, lower-upper, lower-lower. */
  function Corners(d: int, t: int, nD: nat, nT: nat): (r: seq<Option<nat>>)
    ensures |r| == 4
    ensures (forall j :: 0 <= j < 4 ==> r[j].Some?) <==> 0 <= d && d + 1 < nD && 0 <= t && t + 1 < nT
  {
    var r := [RavelIndex(d + 1, t + 1, nD, nT), RavelIndex(d + 1, t, nD, nT),
              RavelIndex(d, t + 1, nD, nT), RavelIndex(d, t, nD, nT)];
    assert (forall j :: 0 <= j < 4 ==> r[j].Some?) ==> r[0].Some? && r[3].Some?;
    r
  }

  /** A grid cell and the fractional position of a point inside it. */
  datatype Cell = Cell(t: nat, d: nat, dT: real, dn: real)

  predicate InGrid(c: Cell, nD: nat, nT: nat) {
    c.d + 1 < nD && c.t + 1 < nT
  }

  lemma CellFraction(lo: real, hi: real, x: real)
    requires lo < x <= hi
    ensures 0.0 < (x - lo) / (hi - lo) <= 1.0
  {
    UnitFraction(x - lo, hi - lo);
    assert (x - lo) / (hi - lo) * (hi - lo) == x - lo;
  }

  /** The cell lookup of `_get_spectrum_2d`: `searchsorted(axis, value) - 1` on each
      axis, not clamped, then the fractional offsets, then the four corner indices. The
      lookup raises exactly when a point is not strictly above the first node or is above
      the last node of either axis; a point on the lowest node is therefore refused. */
  function Locate(g: Grid, lkT: real, lnH: real): (c: Option<Cell>)
    requires g.Valid()
    ensures c.Some? <==> && g.Tvals[0] < lkT <= g.Tvals[|g.Tvals| - 1]
                         && g.Dvals[0] < lnH <= g.Dvals[|g.Dvals| - 1]
    ensures c.Some? ==>
              && InGrid(c.value, |g.Dvals|, |g.Tvals|)
              && g.Tvals[c.value.t] < lkT <= g.Tvals[c.value.t + 1]
              && g.Dvals[c.value.d] < lnH <= g.Dvals[c.value.d + 1]
  {
    var nT, nD := |g.Tvals|, |g.Dvals|;
    var t := SearchLeft(g.Tvals, lkT) - 1;
    var d := SearchLeft(g.Dvals, lnH) - 1;
    var corners := Corners(d, t, nD, nT);
    if forall j :: 0 <= j < 4 ==> corners[j].Some? then
      assert corners[3].Some? && corners[0].Some?;
      Some(Cell(t, d, (lkT - g.Tvals[t]) / g.dTvals[t], (lnH - g.Dvals[d]) / g.dDvals[d]))
    else
      assert corners[3].None? || corners[0].None?;
      None
  }

  /** The offsets of a located point are its fractional positions inside the cell, on
      each axis in `(0, 1]`. */
  lemma CellOffsets(g: Grid, lkT: real, lnH: real)
    requires g.Valid() && Locate(g, lkT, lnH).Some?
    ensures var c := Locate(g, lkT, lnH).value;
            && c.dT == (lkT - g.Tvals[c.t]) / (g.Tvals[c.t + 1] - g.Tvals[c.t])
            && c.dn == (lnH - g.Dvals[c.d]) / (g.Dvals[c.d + 1] - g.Dvals[c.d])
            && 0.0 < c.dT <= 1.0 && 0.0 < c.dn <= 1.0
  {
    var c := Locate(g, lkT, lnH).value;
    CellFraction(g.Tvals[c.t], g.Tvals[c.t + 1], lkT);
    CellFraction(g.Dvals[c.d], g.Dvals[c.d + 1], lnH);
  }

  /** The weights `dx1 .. dx4` of `_get_spectrum_2d`. */
  datatype Weights = Weights(dx1: real, dx2: real, dx3: real, dx4: real) {
    function Get(j: nat): real
      requires j < 4
    {
      [dx1, dx2, dx3, dx4][j]
    }
  }

  /** The weights as the source computes them (`dx2 = dn - dx1` and so on). They sum to
      one and are the products of the 1-D weights of the four corners; on a lower or
      upper density edge only the two corners of that edge carry weight. */
  function CellWeights(dT: real, dn: real): (w: Weights)
    ensures w.dx1 + w.dx2 + w.dx3 + w.dx4 == 1.0
    ensures && w.dx1 == dT * dn && w.dx2 == (1.0 - dT) * dn
            && w.dx3 == dT * (1.0 - dn) && w.dx4 == (1.0 - dT) * (1.0 - dn)
    ensures dn == 0.0 ==> w == Weights(0.0, 0.0, dT, 1.0 - dT)
    ensures dn == 1.0 ==> w == Weights(dT, 1.0 - dT, 0.0, 0.0)
  {
    var dx1 := dT * dn;
    Weights(dx1, dn - dx1, dT - dx1, 1.0 + dx1 - dT - dn)
  }

  /** Inside a cell every weight lies in `[0, 1]`, so the result is a convex combination
      of the corner rows. */
  lemma WeightsInUnitInterval(dT: real, dn: real)
    requires 0.0 <= dT <= 1.0 && 0.0 <= dn <= 1.0
    ensures var w := CellWeights(dT, dn);
            && 0.0 <= w.dx1 <= 1.0 && 0.0 <= w.dx2 <= 1.0
            && 0.0 <= w.dx3 <= 1.0 && 0.0 <= w.dx4 <= 1.0
  {
    ProductInUnitInterval(dT, dn);
    ProductInUnitInterval(1.0 - dT, dn);
    ProductInUnitInterval(dT, 1.0 - dn);
    ProductInUnitInterval(1.0 - dT, 1.0 - dn);
  }

  lemma ProductInUnitInterval(a: real, b: real)
    requires 0.0 <= a <= 1.0 && 0.0 <= b <= 1.0
    ensures 0.0 <= a * b <= a
  {
    assert a * (1.0 - b) >= 0.0;
  }

  /** Textbook bilinear interpolation: linear in temperature along the lower (`q00`,
      `q10`) and the upper (`q01`, `q11`) density edge, then linear in density. */
  function Bilinear(q00: real, q10: real, q01: real, q11: real, dT: real, dn: real): real {
    (1.0 - dn) * ((1.0 - dT) * q00 + dT * q10) + dn * ((1.0 - dT) * q01 + dT * q11)
  }

  /** The source's four-term sum with its weights is the bilinear interpolation. */
  lemma BlendIsBilinear(q00: real, q10: real, q01: real, q11: real, dT: real, dn: real)
    ensures var w := CellWeights(dT, dn);
            w.dx1 * q11 + w.dx2 * q01 + w.dx3 * q10 + w.dx4 * q00 == Bilinear(q00, q10, q01, q11, dT, dn)
  {
  }

  /** The table row of corner `j` of a cell (`idx1 .. idx4`). */
  function CornerIndex(c: Cell, j: nat, nD: nat, nT: nat): (r: nat)
    requires InGrid(c, nD, nT) && j < 4
    ensures r < nD * nT
  {
    Corners(c.d, c.t, nD, nT)[j].value
  }

  /** The reference result for one point: the bilinear interpolation of the rows of a
      table `S` (one row per grid point) at the four corners of its cell. */
  function CellRow(S: Matrix, nD: nat, nT: nat, c: Cell): (r: Spectrum)
    requires |S| == nD * nT && Rectangular(S) && InGrid(c, nD, nT)
    ensures |r| == |S[0]|
  {
    var q11, q01 := S[CornerIndex(c, 0, nD, nT)], S[CornerIndex(c, 1, nD, nT)];
    var q10, q00 := S[CornerIndex(c, 2, nD, nT)], S[CornerIndex(c, 3, nD, nT)];
    seq(|q00|, k requires 0 <= k < |q00| => Bilinear(q00[k], q10[k], q01[k], q11[k], c.dT, c.dn))
  }

  /** `dx_j[:, np.newaxis] * S[idx_j, :]`. */
  function Term(S: Matrix, nD: nat, nT: nat, cells: seq<Cell>, j: nat): (r: Matrix)
    requires |S| == nD * nT && Rectangular(S) && j < 4
    requires forall i :: 0 <= i < |cells| ==> InGrid(cells[i], nD, nT)
    ensures |r| == |cells|
    ensures forall i :: 0 <= i < |cells| ==> |r[i]| == |S[CornerIndex(cells[i], 0, nD, nT)]|
  {
    seq(|cells|, i requires 0 <= i < |cells| =>
      ScaleRow(CellWeights(cells[i].dT, cells[i].dn).Get(j), S[CornerIndex(cells[i], j, nD, nT)]))
  }

  /** `a + b` on two arrays of the same shape. */
  function AddRows(a: Matrix, b: Matrix): (r: Matrix)
    requires |a| == |b| && forall i :: 0 <= i < |a| ==> |a[i]| == |b[i]|
    ensures |r| == |a| && forall i :: 0 <= i < |a| ==> |r[i]| == |a[i]|
  {
    seq(|a|, i requires 0 <= i < |a| => seq(|a[i]|, k requires 0 <= k < |a[i]| => a[i][k] + b[i][k]))
  }

  /** The accumulation of `_get_spectrum_2d` for one table: the term of `idx1`, then
      `+=` the terms of `idx2`, `idx3` and `idx4`. */
  function Accumulate(S: Matrix, nD: nat, nT: nat, cells: seq<Cell>): (r: Matrix)
    requires |S| == nD * nT && Rectangular(S)
    requires forall i :: 0 <= i < |cells| ==> InGrid(cells[i], nD, nT)
    ensures |r| == |cells|
  {
    var s1 := Term(S, nD, nT, cells, 0);
    var s2 := AddRows(s1, Term(S, nD, nT, cells, 1));
    var s3 := AddRows(s2, Term(S, nD, nT, cells, 2));
    AddRows(s3, Term(S, nD, nT, cells, 3))
  }

  /** Every row of the accumulation is the bilinear interpolation in its point's cell. */
  lemma AccumulateRows(S: Matrix, nD: nat, nT: nat, cells: seq<Cell>)
    requires |S| == nD * nT && Rectangular(S)
    requires forall i :: 0 <= i < |cells| ==> InGrid(cells[i], nD, nT)
    ensures forall i :: 0 <= i < |cells| ==> Accumulate(S, nD, nT, cells)[i] == CellRow(S, nD, nT, cells[i])
  {
    forall i | 0 <= i < |cells| ensures Accumulate(S, nD, nT, cells)[i] == CellRow(S, nD, nT, cells[i]) {
      AccumulateIsBilinear(S, nD, nT, cells, i);
    }
  }

  /** The accumulation of `_get_spectrum_2d` on the stack of variable-element tables
      (`var_spec[:, idx_j, :]`): plane `e`, row `i` is the bilinear interpolation of
      table `e` in the cell of point `i`. */
  function AccumulateStack(vs: seq<Matrix>, nD: nat, nT: nat, cells: seq<Cell>): (r: seq<Matrix>)
    requires forall e :: 0 <= e < |vs| ==> |vs[e]| == nD * nT && Rectangular(vs[e])
    requires forall i :: 0 <= i < |cells| ==> InGrid(cells[i], nD, nT)
    ensures |r| == |vs|
    ensures forall e :: 0 <= e < |vs| ==>
              && |r[e]| == |cells|
              && forall i :: 0 <= i < |cells| ==> r[e][i] == CellRow(vs[e], nD, nT, cells[i])
  {
    var r := seq(|vs|, e requires 0 <= e < |vs| => Accumulate(vs[e], nD, nT, cells));
    assert forall e :: 0 <= e < |vs| ==> r[e] == Accumulate(vs[e], nD, nT, cells);
    forall e | 0 <= e < |vs|
      ensures forall i :: 0 <= i < |cells| ==> r[e][i] == CellRow(vs[e], nD, nT, cells[i])
    {
      AccumulateRows(vs[e], nD, nT, cells);
    }
    r
  }

  /** Row `i` of the accumulation is the bilinear interpolation of the table in the cell
      of point `i`. */
  lemma AccumulateIsBilinear(S: Matrix, nD: nat, nT: nat, cells: seq<Cell>, i: nat)
    requires |S| == nD * nT && Rectangular(S)
    requires forall i :: 0 <= i < |cells| ==> InGrid(cells[i], nD, nT)
    requires i < |cells|
    ensures Accumulate(S, nD, nT, cells)[i] == CellRow(S, nD, nT, cells[i])
  {
    var acc, row := Accumulate(S, nD, nT, cells), CellRow(S, nD, nT, cells[i]);
    AccumulateEntries(S, nD, nT, cells, i);
    forall k | 0 <= k < |row| ensures acc[i][k] == row[k] {
      var c := cells[i];
      AccumulateEntry(S, nD, nT, cells, i, k);
      BlendIsBilinear(S[CornerIndex(c, 3, nD, nT)][k], S[CornerIndex(c, 2, nD, nT)][k],
                      S[CornerIndex(c, 1, nD, nT)][k], S[CornerIndex(c, 0, nD, nT)][k], c.dT, c.dn);
    }
  }

  lemma AccumulateEntries(S: Matrix, nD: nat, nT: nat, cells: seq<Cell>, i: nat)
    requires |S| == nD * nT && Rectangular(S)
    requires forall i :: 0 <= i < |cells| ==> InGrid(cells[i], nD, nT)
    requires i < |cells|
    ensures |Accumulate(S, nD, nT, cells)[i]| == |CellRow(S, nD, nT, cells[i])|
  {
    var c := cells[i];
    var t1 := Term(S, nD, nT, cells, 0);
    assert |t1[i]| == |S[CornerIndex(c, 0, nD, nT)]|;
  }

  /** Entry `k` of row `i` of the accumulation: the four weighted corner entries. */
  lemma AccumulateEntry(S: Matrix, nD: nat, nT: nat, cells: seq<Cell>, i: nat, k: nat)
    requires |S| == nD * nT && Rectangular(S)
    requires forall i :: 0 <= i < |cells| ==> InGrid(cells[i], nD, nT)
    requires i < |cells| && k < |CellRow(S, nD, nT, cells[i])|
    ensures var c := cells[i];
            var w := CellWeights(c.dT, c.dn);
            && k < |Accumulate(S, nD, nT, cells)[i]|
            && Accumulate(S, nD, nT, cells)[i][k]
               == w.dx1 * S[CornerIndex(c, 0, nD, nT)][k] + w.dx2 * S[CornerIndex(c, 1, nD, nT)][k]
                  + w.dx3 * S[CornerIndex(c, 2, nD, nT)][k] + w.dx4 * S[CornerIndex(c, 3, nD, nT)][k]
  {
    var t1, t2 := Term(S, nD, nT, cells, 0), Term(S, nD, nT, cells, 1);
    var t3, t4 := Term(S, nD, nT, cells, 2), Term(S, nD, nT, cells, 3);
    TermEntry(S, nD, nT, cells, 0, i, k);
    TermEntry(S, nD, nT, cells, 1, i, k);
    TermEntry(S, nD, nT, cells, 2, i, k);
    TermEntry(S, nD, nT, cells, 3, i, k);
    var s2 := AddRows(t1, t2);
    var s3 := AddRows(s2, t3);
    AddRowsAt(t1, t2, i, k);
    AddRowsAt(s2, t3, i, k);
    AddRowsAt(s3, t4, i, k);
  }

  /** Entry `k` of row `i` of corner `j`'s term: that corner's weight times its entry. */
  lemma TermEntry(S: Matrix, nD: nat, nT: nat, cells: seq<Cell>, j: nat, i: nat, k: nat)
    requires |S| == nD * nT && Rectangular(S) && j < 4
    requires forall i :: 0 <= i < |cells| ==> InGrid(cells[i], nD, nT)
    requires i < |cells| && k < |S[CornerIndex(cells[i], 0, nD, nT)]|
    ensures var c := cells[i];
            && |Term(S, nD, nT, cells, j)[i]| == |S[CornerIndex(c, 0, nD, nT)]|
            && Term(S, nD, nT, cells, j)[i][k] == CellWeights(c.dT, c.dn).Get(j) * S[CornerIndex(c, j, nD, nT)][k]
  {
  }

  lemma AddRowsAt(a: Matrix, b: Matrix, i: nat, k: nat)
    requires |a| == |b| && forall i :: 0 <= i < |a| ==> |a[i]| == |b[i]|
    requires i < |a| && k < |a[i]|
    ensures k < |AddRows(a, b)[i]| && AddRows(a, b)[i][k] == a[i][k] + b[i][k]
  {
  }

  /** The table rows of density node `k`, one per temperature node. */
  function DensitySlice(S: Matrix, nD: nat, nT: nat, k: nat): (r: Matrix)
    requires |S| == nD * nT && k < nD
    ensures |r| == nT
  {
    seq(nT, t requires 0 <= t < nT => S[RavelIndex(k, t, nD, nT).value])
  }

  /** On density node `k >= 1` the lookup picks the cell below it, with `dn == 1`, and
      the same temperature interval as the 1-D interpolant. */
  lemma NodeCell(g: Grid, lkT: real, k: nat)
    requires g.Valid() && 1 <= k < |g.Dvals| && g.Tvals[0] < lkT <= g.Tvals[|g.Tvals| - 1]
    ensures Locate(g, lkT, g.Dvals[k]).Some?
    ensures var c := Locate(g, lkT, g.Dvals[k]).value;
            && c.d == k - 1 && c.dn == 1.0 && c.t == Bracket(g.Tvals, lkT)
  {
    NodeDensity(g, lkT, k);
    NodeTemperature(g, lkT, g.Dvals[k]);
  }

  lemma NodeDensity(g: Grid, lkT: real, k: nat)
    requires g.Valid() && 1 <= k < |g.Dvals| && g.Tvals[0] < lkT <= g.Tvals[|g.Tvals| - 1]
    ensures Locate(g, lkT, g.Dvals[k]).Some?
    ensures Locate(g, lkT, g.Dvals[k]).value.d == k - 1
    ensures Locate(g, lkT, g.Dvals[k]).value.dn == 1.0
  {
    SearchLeftAtNode(g.Dvals, k);
    CellOffsets(g, lkT, g.Dvals[k]);
    var c := Locate(g, lkT, g.Dvals[k]).value;
    assert c.d == k - 1;
    var width := g.Dvals[k] - g.Dvals[k - 1];
    assert c.dn == width / width;
    SelfRatio(width);
  }

  lemma SelfRatio(w: real)
    requires w != 0.0
    ensures w / w == 1.0
  {
  }

  lemma NodeTemperature(g: Grid, lkT: real, lnH: real)
    requires g.Valid() && Locate(g, lkT, lnH).Some?
    ensures Locate(g, lkT, lnH).value.t == Bracket(g.Tvals, lkT)
  {
  }

  /** With `dn == 1` the bilinear row is the 1-D blend of the two upper corners. */
  lemma UpperEdgeRow(S: Matrix, nD: nat, nT: nat, c: Cell)
    requires |S| == nD * nT && Rectangular(S) && InGrid(c, nD, nT) && c.dn == 1.0
    ensures forall x :: 0 <= x < |S[0]| ==>
              CellRow(S, nD, nT, c)[x] ==
                (1.0 - c.dT) * S[CornerIndex(c, 1, nD, nT)][x] + c.dT * S[CornerIndex(c, 0, nD, nT)][x]
  {
  }

  /** On a density node above the lowest one, the cell lookup puts the point on the upper
      edge of the cell below (`dn == 1`), and the 2-D interpolation reduces to the 1-D
      temperature interpolation along that node's slice of the table. */
  lemma GridNodeReduction(g: Grid, S: Matrix, lkT: real, k: nat)
    requires g.Valid() && |S| == |g.Dvals| * |g.Tvals| && Rectangular(S)
    requires 1 <= k < |g.Dvals| && g.Tvals[0] < lkT <= g.Tvals[|g.Tvals| - 1]
    ensures Locate(g, lkT, g.Dvals[k]).Some?
    ensures var c := Locate(g, lkT, g.Dvals[k]).value;
            var f := Interp1d(g.Tvals, DensitySlice(S, |g.Dvals|, |g.Tvals|, k));
            && c.d == k - 1 && c.dn == 1.0 && f.Valid()
            && CellRow(S, |g.Dvals|, |g.Tvals|, c) == f.At(lkT)
  {
    NodeCell(g, lkT, k);
    CellOffsets(g, lkT, g.Dvals[k]);
    SliceRow(g, S, lkT, k);
    SliceInterpolation(g, S, lkT, k, Locate(g, lkT, g.Dvals[k]).value);
  }

  /** A row that blends two adjacent rows of a density slice with the bracket's weight
      is the slice's temperature interpolant at that point. */
  lemma SliceInterpolation(g: Grid, S: Matrix, lkT: real, k: nat, c: Cell)
    requires g.Valid() && |S| == |g.Dvals| * |g.Tvals| && Rectangular(S)
    requires k < |g.Dvals| && g.Tvals[0] < lkT <= g.Tvals[|g.Tvals| - 1]
    requires InGrid(c, |g.Dvals|, |g.Tvals|) && c.t == Bracket(g.Tvals, lkT)
    requires c.dT == (lkT - g.Tvals[c.t]) / (g.Tvals[c.t + 1] - g.Tvals[c.t])
    requires var slice := DensitySlice(S, |g.Dvals|, |g.Tvals|, k);
             IsBlend(CellRow(S, |g.Dvals|, |g.Tvals|, c), slice[c.t], slice[c.t + 1], c.dT)
    ensures Interp1d(g.Tvals, DensitySlice(S, |g.Dvals|, |g.Tvals|, k)).Valid()
    ensures CellRow(S, |g.Dvals|, |g.Tvals|, c) == Interp1d(g.Tvals, DensitySlice(S, |g.Dvals|, |g.Tvals|, k)).At(lkT)
  {
    var slice := DensitySlice(S, |g.Dvals|, |g.Tvals|, k);
    var f := Interp1d(g.Tvals, slice);
    SliceValid(g, S, k);
    AtFromBlend(f, lkT, CellRow(S, |g.Dvals|, |g.Tvals|, c), c.t, c.dT);
  }

  lemma SliceValid(g: Grid, S: Matrix, k: nat)
    requires g.Valid() && |S| == |g.Dvals| * |g.Tvals| && Rectangular(S)
    requires k < |g.Dvals| && |g.Tvals| >= 2
    ensures Interp1d(g.Tvals, DensitySlice(S, |g.Dvals|, |g.Tvals|, k)).Valid()
    ensures |DensitySlice(S, |g.Dvals|, |g.Tvals|, k)[0]| == |S[0]|
  {
  }

  lemma SliceRow(g: Grid, S: Matrix, lkT: real, k: nat)
    requires g.Valid() && |S| == |g.Dvals| * |g.Tvals| && Rectangular(S)
    requires 1 <= k < |g.Dvals| && g.Tvals[0] < lkT <= g.Tvals[|g.Tvals| - 1]
    ensures Locate(g, lkT, g.Dvals[k]).Some?
    ensures var c := Locate(g, lkT, g.Dvals[k]).value;
            var slice := DensitySlice(S, |g.Dvals|, |g.Tvals|, k);
            && c.t + 1 < |slice|
            && IsBlend(CellRow(S, |g.Dvals|, |g.Tvals|, c), slice[c.t], slice[c.t + 1], c.dT)
  {
    var nD, nT := |g.Dvals|, |g.Tvals|;
    NodeCell(g, lkT, k);
    var c := Locate(g, lkT, g.Dvals[k]).value;
    var slice := DensitySlice(S, nD, nT, k);
    assert slice[c.t] == S[CornerIndex(c, 1, nD, nT)];
    assert slice[c.t + 1] == S[CornerIndex(c, 0, nD, nT)];
    UpperEdgeRow(S, nD, nT, c);
  }

  /** `v / nHi[:, np.newaxis]`: row `i` divided by density `i`. */
  function DivRows(rows: Matrix, nH: seq<real>): (r: Matrix)
    requires |rows| == |nH| && forall i :: 0 <= i < |nH| ==> nH[i] != 0.0
    ensures |r| == |rows| && forall i :: 0 <= i < |rows| ==> r[i] == DivRow(rows[i], nH[i])
  {
    seq(|rows|, i requires 0 <= i < |rows| => DivRow(rows[i], nH[i]))
  }

  /** What `v1 / nHi[:, np.newaxis, np.newaxis]` is meant to compute, as `c1` and `m1` are
      divided on the lines before it: in every plane, each point's row divided by that
      point's own density. `DivStackAsWritten` is what numpy computes instead. */
  function DivStack(v: seq<Matrix>, nH: seq<real>): (r: seq<Matrix>)
    requires forall e :: 0 <= e < |v| ==> |v[e]| == |nH|
    requires forall i :: 0 <= i < |nH| ==> nH[i] != 0.0
    ensures |r| == |v| && forall e :: 0 <= e < |v| ==>
              && |r[e]| == |nH|
              && forall k :: 0 <= k < |nH| ==> r[e][k] == DivRow(v[e][k], nH[k])
  {
    seq(|v|, e requires 0 <= e < |v| => DivRows(v[e], nH))
  }

  /** The entry of `nHi` that broadcasting pairs with plane `e` of `v1` when `n` points
      are in the table: a single density is stretched over every plane. */
  function PlaneIndex(e: nat, n: nat): nat {
    if n == 1 then 0 else e
  }

  /** `v1 / nHi[:, np.newaxis, np.newaxis]` followed by `vspec[:, use_igm, :] = ...`, as
      numpy evaluates them. `v1` has shape `(nvar_elem, n_igm, ne)` and the divisor
      `(n_igm, 1, 1)`, so broadcasting lines the densities up with the element axis: every
      row of plane `e` is divided by `nHi[e]`, or by the only density when one point is in
      the table. Any other pair of counts fails: in the division when the counts differ
      and neither is one, or in the write-back when one element meets several points (the
      quotient then has shape `(n_igm, n_igm, ne)`). */
  function DivStackAsWritten(v: seq<Matrix>, nH: seq<real>): (r: Result<seq<Matrix>>)
    requires |nH| >= 1
    requires forall e :: 0 <= e < |v| ==> |v[e]| == |nH|
    requires forall i :: 0 <= i < |nH| ==> nH[i] != 0.0
    ensures r.Ok? <==> |nH| == 1 || |v| == |nH|
    ensures r.Err? ==> r.error == ShapeMismatch
    ensures r.Ok? ==> |r.value| == |v| && forall e :: 0 <= e < |v| ==>
              && |r.value[e]| == |nH|
              && forall k :: 0 <= k < |nH| ==> r.value[e][k] == DivRow(v[e][k], nH[PlaneIndex(e, |nH|)])
  {
    if |nH| == 1 || |v| == |nH| then
      Ok(seq(|v|, e requires 0 <= e < |v| =>
           seq(|nH|, k requires 0 <= k < |nH| => DivRow(v[e][k], nH[PlaneIndex(e, |nH|)]))))
    else
      Err(ShapeMismatch)
  }

  /** The per-point division is local: a point's row depends on its own interpolated row
      and density only, whatever other points share the query. */
  lemma DivStackLocal(v: seq<Matrix>, nH: seq<real>, v': seq<Matrix>, nH': seq<real>, e: nat, k: nat, k': nat)
    requires forall f :: 0 <= f < |v| ==> |v[f]| == |nH|
    requires forall i :: 0 <= i < |nH| ==> nH[i] != 0.0
    requires forall f :: 0 <= f < |v'| ==> |v'[f]| == |nH'|
    requires forall i :: 0 <= i < |nH'| ==> nH'[i] != 0.0
    requires e < |v| && e < |v'| && k < |nH| && k' < |nH'|
    requires v[e][k] == v'[e][k'] && nH[k] == nH'[k']
    ensures DivStack(v, nH)[e][k] == DivStack(v', nH')[e][k']
  {
  }

  /** With a single point the broadcast does what was meant: every plane is divided by
      that point's density. */
  lemma DivStackOnePoint(v: seq<Matrix>, nH: seq<real>)
    requires |nH| == 1
    requires forall e :: 0 <= e < |v| ==> |v[e]| == |nH|
    requires nH[0] != 0.0
    ensures DivStackAsWritten(v, nH) == Ok(DivStack(v, nH))
  {
    var r := DivStackAsWritten(v, nH).value;
    var d := DivStack(v, nH);
    forall e | 0 <= e < |v| ensures r[e] == d[e] {
      assert |r[e]| == 1 == |d[e]| && r[e][0] == d[e][0];
    }
    assert r == d;
  }

  /** Two variable elements and two in-table points of densities 1 and 2: as written, the
      first point's row of the second element is divided by the second point's density. */
  lemma DivStackMisdivides()
    ensures var v, nH := [[[1.0], [1.0]], [[1.0], [1.0]]], [1.0, 2.0];
            && DivStackAsWritten(v, nH).Ok?
            && DivStackAsWritten(v, nH).value[1][0] == [0.5]
            && DivStack(v, nH)[1][0] == [1.0]
  {
    var v, nH := [[[1.0], [1.0]], [[1.0], [1.0]]], [1.0, 2.0];
    assert DivRow([1.0], 2.0)[0] == 0.5;
    assert DivRow([1.0], 1.0)[0] == 1.0;
  }

  /** Three variable elements and two in-table points: as written the shapes do not
      broadcast and `get_spectrum` raises, where the per-point division is defined. */
  lemma DivStackRaises()
    ensures DivStackAsWritten([[[1.0], [1.0]], [[1.0], [1.0]], [[1.0], [1.0]]], [1.0, 2.0]) == Err(ShapeMismatch)
  {
  }

  /** `var_spec *= 1.0e-14`. */
  function ScaleStack(a: real, v: seq<Matrix>): (r: seq<Matrix>)
    ensures |r| == |v| && forall e :: 0 <= e < |v| ==> r[e] == ScaleMatrix(a, v[e])
  {
    seq(|v|, e requires 0 <= e < |v| => ScaleMatrix(a, v[e]))
  }

  lemma ScaledShape(a: real, t: Components, rows: nat)
    requires TableShaped(t, rows)
    ensures TableShaped(Components(ScaleMatrix(a, t.cosmic), ScaleMatrix(a, t.metal),
              if t.variable.None? then None else Some(ScaleStack(a, t.variable.value))), rows)
  {
    assert RowsOfWidth(t.cosmic, if rows == 0 then 0 else |t.cosmic[0]|);
    assert RowsOfWidth(t.metal, if rows == 0 then 0 else |t.metal[0]|);
    ScaleMatrixShape(a, t.cosmic, if rows == 0 then 0 else |t.cosmic[0]|);
    ScaleMatrixShape(a, t.metal, if rows == 0 then 0 else |t.metal[0]|);
    if t.variable.Some? {
      var v := t.variable.value;
      forall e | 0 <= e < |v| ensures Rectangular(ScaleMatrix(a, v[e])) {
        assert RowsOfWidth(v[e], if rows == 0 then 0 else |v[e][0]|);
        ScaleMatrixShape(a, v[e], if rows == 0 then 0 else |v[e][0]|);
      }
    }
  }

  /** Scaling keeps the width of every row. */
  lemma ScaledWidth(a: real, t: Components, width: nat)
    requires TableWidth(t, width)
    ensures TableWidth(Components(ScaleMatrix(a, t.cosmic), ScaleMatrix(a, t.metal),
              if t.variable.None? then None else Some(ScaleStack(a, t.variable.value))), width)
  {
    ScaleMatrixShape(a, t.cosmic, width);
    ScaleMatrixShape(a, t.metal, width);
    if t.variable.Some? {
      var v := t.variable.value;
      forall e | 0 <= e < |v| ensures RowsOfWidth(ScaleMatrix(a, v[e]), width) {
        ScaleMatrixShape(a, v[e], width);
      }
    }
  }

  /** The IGM model. The table and the fallback APEC model exist only once
      `prepare_spectrum` has run. */
  class IgmSpectralModel {
    const igen: IgmGenerator
    const units: Conversions
    const nvarElem: nat
    const minTableKT: real
    const maxTableKT: real
    const minTableNH: real
    const maxTableNH: real
    const Tvals: seq<real>
    const Dvals: seq<real>
    const dTvals: seq<real>
    const dDvals: seq<real>
    const nT: nat
    const nD: nat
    var prepared: bool
    var ne: nat
    var ebins: seq<real>
    var emid: seq<real>
    var de: seq<real>
    var apecModel: TableApecModel?
    var cosmicSpec: Matrix
    var metalSpec: Matrix
    var varSpec: Option<seq<Matrix>>

    function Axes(): Grid {
      Grid(Tvals, Dvals, dTvals, dDvals)
    }

    ghost predicate Valid()
      reads this, apecModel
    {
      && igen.Valid() && units.Valid()
      && Axes() == igen.Axes()
      && nT == |Tvals| && nD == |Dvals| && nvarElem == igen.nvarElem
      && Bounds() && minTableNH > 0.0
      && (prepared ==> apecModel != null && apecModel.Valid() && apecModel.InterpolantWidth(ne) && Loaded())
    }

    /** The table bounds are `10**` of the first and last nodes of the axes; the
        temperature bounds are in keV, so they give those values once converted to Kelvin. */
    ghost predicate Bounds()
      requires units.Valid()
    {
      && |Tvals| >= 1 && |Dvals| >= 1
      && minTableKT * units.kPerKeV == units.Exp10(Tvals[0])
      && maxTableKT * units.kPerKeV == units.Exp10(Tvals[|Tvals| - 1])
      && minTableNH == units.Exp10(Dvals[0])
      && maxTableNH == units.Exp10(Dvals[|Dvals| - 1])
    }

    /** The prepared tables: one row per grid point, `ne` entries per row, `nvarElem`
        variable elements. */
    ghost predicate Loaded()
      reads this
    {
      && Shape() && minTableNH > 0.0
      && TableShaped(Components(cosmicSpec, metalSpec, varSpec), nD * nT)
      && TableWidth(Components(cosmicSpec, metalSpec, varSpec), ne)
      && (varSpec.Some? ==> |varSpec.value| == nvarElem)
    }

    /** `__init__`: the table bounds in keV and cm^-3 come from the first and last
        nodes of the logarithmic axes. */
    constructor (igen: IgmGenerator, units: Conversions)
      requires igen.Valid() && units.Valid()
      ensures Valid() && !prepared && this.igen == igen && this.units == units
      ensures Axes() == igen.Axes() && nT == |igen.Tvals| && nD == |igen.Dvals|
      ensures nvarElem == igen.nvarElem
      ensures minTableKT == units.Exp10(igen.Tvals[0]) / units.kPerKeV
      ensures maxTableKT == units.Exp10(igen.Tvals[|igen.Tvals| - 1]) / units.kPerKeV
      ensures minTableNH == units.Exp10(igen.Dvals[0])
      ensures maxTableNH == units.Exp10(igen.Dvals[|igen.Dvals| - 1])
    {
      this.igen := igen;
      this.units := units;
      nvarElem := igen.nvarElem;
      minTableKT := units.Exp10(igen.Tvals[0]) / units.kPerKeV;
      maxTableKT := units.Exp10(igen.Tvals[|igen.Tvals| - 1]) / units.kPerKeV;
      minTableNH := units.Exp10(igen.Dvals[0]);
      maxTableNH := units.Exp10(igen.Dvals[|igen.Dvals| - 1]);
      Tvals, Dvals, dTvals, dDvals := igen.Tvals, igen.Dvals, igen.dTvals, igen.dDvals;
      nT, nD := |igen.Tvals|, |igen.Dvals|;
      prepared := false;
      ne, ebins, emid, de := 0, [], [], [];
      apecModel := null;
      cosmicSpec, metalSpec, varSpec := [], [], None;
    }

    /** `prepare_spectrum`: takes the energy grid, builds a fresh APEC model over the same
        energy range, loads and normalises the IGM table, then prepares the APEC model,
        whose error (if any) is the error of the whole call. */
    method PrepareSpectrum(zobs: real, kTMin: real, kTMax: real) returns (err: Option<Error>)
      requires Valid()
      modifies this`ne, this`ebins, this`emid, this`de, this`apecModel
      modifies this`cosmicSpec, this`metalSpec, this`varSpec, this`prepared
      ensures Valid() && prepared && fresh(apecModel)
      ensures var g := igen.Energies(zobs);
              ne == g.ne && ebins == g.ebins && emid == g.emid && de == g.de
      ensures apecModel.agen == igen.Apec(ebins[0], ebins[|ebins| - 1], ne)
      ensures var t := igen.Table(ne, igen.Energies(zobs).eidxs, zobs);
              && cosmicSpec == ScaleMatrix(TableNorm, t.cosmic)
              && metalSpec == ScaleMatrix(TableNorm, t.metal)
              && varSpec == (if t.variable.None? then None else Some(ScaleStack(TableNorm, t.variable.value)))
      ensures apecModel.PreparedFor(zobs, kTMin, kTMax)
      ensures var a := apecModel;
              var cOk := MakeInterp1d(a.Tvals, a.cosmicSpec).Ok?;
              var mOk := MakeInterp1d(a.Tvals, a.metalSpec).Ok?;
              var vOk := a.varSpec.None? || MakeInterp1dStack(a.Tvals, a.varSpec.value).Ok?;
              err.None? <==> cOk && mOk && vOk
    {
      var g := igen.Energies(zobs);
      var a;
      a, err := PrepareApec(g, zobs, kTMin, kTMax);
      ne, ebins, emid, de, apecModel := g.ne, g.ebins, g.emid, g.de, a;
      LoadTable(g.eidxs, zobs);
      prepared := true;
    }

    /** The APEC half of `prepare_spectrum`: a fresh model over the energy range of `g`,
        prepared for the redshift and temperature window. */
    method PrepareApec(g: EnergyGrid, zobs: real, kTMin: real, kTMax: real)
      returns (a: TableApecModel, err: Option<Error>)
      requires igen.Valid() && |g.ebins| >= 1
      ensures fresh(a) && a.Valid()
      ensures a.agen == igen.Apec(g.ebins[0], g.ebins[|g.ebins| - 1], g.ne)
      ensures a.PreparedFor(zobs, kTMin, kTMax) && a.InterpolantWidth(g.ne)
      ensures var cOk := MakeInterp1d(a.Tvals, a.cosmicSpec).Ok?;
              var mOk := MakeInterp1d(a.Tvals, a.metalSpec).Ok?;
              var vOk := a.varSpec.None? || MakeInterp1dStack(a.Tvals, a.varSpec.value).Ok?;
              err.None? <==> cOk && mOk && vOk
    {
      var agen := igen.Apec(g.ebins[0], g.ebins[|g.ebins| - 1], g.ne);
      igen.ApecAxesIncrease(g.ebins[0], g.ebins[|g.ebins| - 1], g.ne);
      a := new TableApecModel(agen);
      err := a.PrepareSpectrum(zobs, kTMin, kTMax);
      igen.ApecTableWidth(g.ebins[0], g.ebins[|g.ebins| - 1], g.ne, WindowIndices(agen.Tvals, kTMin, kTMax), zobs);
      PreparedWidth(a, zobs, kTMin, kTMax, g.ne);
    }

    /** The table half of `prepare_spectrum`: the IGM table for the energy indices and
        redshift, scaled by `1.0e-14`. */
    method LoadTable(eidxs: seq<int>, zobs: real)
      requires igen.Valid() && Shape() && nvarElem == igen.nvarElem && minTableNH > 0.0
      requires Axes() == igen.Axes()
      modifies this`cosmicSpec, this`metalSpec, this`varSpec
      ensures Loaded()
      ensures var t := igen.Table(ne, eidxs, zobs);
              && cosmicSpec == ScaleMatrix(TableNorm, t.cosmic)
              && metalSpec == ScaleMatrix(TableNorm, t.metal)
              && varSpec == (if t.variable.None? then None else Some(ScaleStack(TableNorm, t.variable.value)))
    {
      var t := igen.Table(ne, eidxs, zobs);
      igen.TableLoads(ne, eidxs, zobs);
      ScaledShape(TableNorm, t, nD * nT);
      ScaledWidth(TableNorm, t, ne);
      cosmicSpec, metalSpec := ScaleMatrix(TableNorm, t.cosmic), ScaleMatrix(TableNorm, t.metal);
      varSpec := if t.variable.None? then None else Some(ScaleStack(TableNorm, t.variable.value));
    }

    /** The cell of one queried point: temperature in keV converted to log10 K, density
        to log10 cm^-3. */
    function PointCell(kT: real, nH: real): (c: Option<Cell>)
      requires Axes().Valid()
      ensures var lkT, lnH := units.Log10(kT * units.kPerKeV), units.Log10(nH);
              c.Some? <==> Tvals[0] < lkT <= Tvals[|Tvals| - 1] && Dvals[0] < lnH <= Dvals[|Dvals| - 1]
      ensures c.Some? ==> InGrid(c.value, |Dvals|, |Tvals|)
    {
      Locate(Axes(), units.Log10(kT * units.kPerKeV), units.Log10(nH))
    }

    /** The cells of all queried points, or `None` when some point has none (the lookup
        of `_get_spectrum_2d` raises then). */
    function Cells(kT: seq<real>, nH: seq<real>): (r: Option<seq<Cell>>)
      requires Axes().Valid() && |kT| == |nH|
      ensures r.Some? <==> forall i :: 0 <= i < |kT| ==> PointCell(kT[i], nH[i]).Some?
      ensures r.Some? ==> |r.value| == |kT|
      ensures r.Some? ==> forall i :: 0 <= i < |kT| ==>
                PointCell(kT[i], nH[i]) == Some(r.value[i]) && InGrid(r.value[i], |Dvals|, |Tvals|)
    {
      if forall i :: 0 <= i < |kT| ==> PointCell(kT[i], nH[i]).Some? then
        Some(seq(|kT|, i requires 0 <= i < |kT| => PointCell(kT[i], nH[i]).value))
      else
        None
    }

    /** The 2-D interpolation of every table, as `_get_spectrum_2d` promises it: row `i`
        of each component is the bilinear interpolation of that table in cell `i`. */
    ghost predicate Interpolated(cells: seq<Cell>, out: Components)
      reads this
      requires Loaded()
      requires forall i :: 0 <= i < |cells| ==> InGrid(cells[i], nD, nT)
    {
      && |out.cosmic| == |cells| && |out.metal| == |cells|
      && (forall i :: 0 <= i < |cells| ==>
            && out.cosmic[i] == CellRow(cosmicSpec, nD, nT, cells[i])
            && out.metal[i] == CellRow(metalSpec, nD, nT, cells[i]))
      && (out.variable.Some? <==> varSpec.Some?)
      && (varSpec.Some? ==>
            && |out.variable.value| == nvarElem
            && forall e :: 0 <= e < nvarElem ==>
                 && |out.variable.value[e]| == |cells|
                 && forall i :: 0 <= i < |cells| ==>
                      out.variable.value[e][i] == CellRow(varSpec.value[e], nD, nT, cells[i]))
    }

    /** `_get_spectrum_2d`: raises unless every point has a cell; otherwise every
        component's row `i` is the bilinear interpolation of that table in point `i`'s
        cell (not yet divided by the density). */
    method GetSpectrum2d(kT: seq<real>, nH: seq<real>) returns (r: Result<Components>)
      requires Valid() && prepared && |kT| == |nH|
      ensures r.Ok? <==> forall i :: 0 <= i < |kT| ==> PointCell(kT[i], nH[i]).Some?
      ensures r.Err? ==> r.error == InvalidCellIndex
      ensures r.Ok? ==> Interpolated(Cells(kT, nH).value, r.value)
    {
      // `lkT`, `lnH`, `tidxs`, `didxs`, `dT`, `dn` and the flat corner indices of every
      // point; the lookup raises when a point has no cell.
      var located := Cells(kT, nH);
      if located.None? {
        return Err(InvalidCellIndex);
      }
      var cells := located.value;
      var c := Accumulate(cosmicSpec, nD, nT, cells);
      var m := Accumulate(metalSpec, nD, nT, cells);
      AccumulateRows(cosmicSpec, nD, nT, cells);
      AccumulateRows(metalSpec, nD, nT, cells);
      var v: Option<seq<Matrix>> := None;
      if varSpec.Some? {
        v := Some(AccumulateStack(varSpec.value, nD, nT, cells));
      }
      r := Ok(Components(c, m, v));
    }

    /** The mask `use_igm`: both the temperature and the density lie within the table's
        bounds, ends included. */
    function InTable(kT: real, nH: real): bool {
      minTableKT <= kT <= maxTableKT && minTableNH <= nH <= maxTableNH
    }

    function UseIgm(kT: seq<real>, nH: seq<real>): (mask: seq<bool>)
      requires |kT| == |nH|
      ensures |mask| == |kT| && forall i :: 0 <= i < |kT| ==> mask[i] == InTable(kT[i], nH[i])
    {
      seq(|kT|, i requires 0 <= i < |kT| => InTable(kT[i], nH[i]))
    }

    /** The 2-D branch succeeds: no in-table point sits on the lowest temperature or the
        lowest density of the table, where `searchsorted - 1` gives it the cell index -1
        (`InTableCell`). */
    ghost predicate TableAnswers(kT: seq<real>, nH: seq<real>)
      requires |kT| == |nH|
    {
      forall i :: 0 <= i < |kT| && InTable(kT[i], nH[i]) ==> kT[i] != minTableKT && nH[i] != minTableNH
    }

    /** An in-table point has a cell exactly when it is not on the table's lowest
        temperature or lowest density: the lookup `searchsorted(axis, x) - 1` is not
        clamped, so the first node of either axis has none. */
    lemma InTableCell(kT: real, nH: real)
      requires units.Valid() && Bounds() && Axes().Valid() && InTable(kT, nH)
      ensures PointCell(kT, nH).Some? <==> kT != minTableKT && nH != minTableNH
    {
      TemperatureCell(kT);
      DensityCell(nH);
    }

    /** On the temperature axis: a temperature in the table's range is strictly above the
        first node in log10 K, and at most the last, unless it is the lowest bound. */
    lemma TemperatureCell(kT: real)
      requires units.Valid() && Bounds() && minTableKT <= kT <= maxTableKT
      ensures Tvals[0] < units.Log10(kT * units.kPerKeV) <= Tvals[|Tvals| - 1] <==> kT != minTableKT
    {
      var lo, hi := units.Exp10(Tvals[0]), units.Exp10(Tvals[|Tvals| - 1]);
      KelvinBounds(minTableKT, maxTableKT, kT, units.kPerKeV, lo, hi);
      AxisLog(lo, hi, kT * units.kPerKeV, Tvals[0], Tvals[|Tvals| - 1]);
    }

    /** On the density axis, the same in log10 cm^-3. */
    lemma DensityCell(nH: real)
      requires units.Valid() && Bounds() && minTableNH <= nH <= maxTableNH
      ensures Dvals[0] < units.Log10(nH) <= Dvals[|Dvals| - 1] <==> nH != minTableNH
    {
      AxisLog(minTableNH, maxTableNH, nH, Dvals[0], Dvals[|Dvals| - 1]);
    }

    /** Converting a temperature between `a` and `b` keV to Kelvin puts it between the
        Kelvin values `lo` and `hi` of the bounds, and on `lo` only from `a`. */
    static lemma KelvinBounds(a: real, b: real, x: real, k: real, lo: real, hi: real)
      requires k > 0.0 && a <= x <= b && a * k == lo && b * k == hi
      ensures lo <= x * k <= hi
      ensures x == a <==> x * k == lo
    {
    }

    /** A value between `10**a` and `10**b` has a logarithm in `(a, b]` unless it is `10**a`. */
    lemma AxisLog(lo: real, hi: real, x: real, a: real, b: real)
      requires units.Valid() && lo == units.Exp10(a) && hi == units.Exp10(b) && lo <= x <= hi
      ensures a < units.Log10(x) <= b <==> x != lo
    {
      assert units.Log10(lo) == a && units.Log10(hi) == b;
    }

    /** `TableAnswers` in terms of the cell lookup: every in-table point has a cell. */
    lemma CellsAnswer(kT: seq<real>, nH: seq<real>)
      requires Valid() && |kT| == |nH|
      ensures TableAnswers(kT, nH) <==>
                forall i :: 0 <= i < |kT| && InTable(kT[i], nH[i]) ==> PointCell(kT[i], nH[i]).Some?
    {
      forall i | 0 <= i < |kT| && InTable(kT[i], nH[i]) {
        InTableCell(kT[i], nH[i]);
      }
    }

    /** The fallback branch succeeds: there are no out-of-table points, or the APEC model
        answers them, with as many variable elements as the table has. */
    ghost predicate FallbackAnswers(kT: seq<real>, nH: seq<real>)
      reads this, apecModel
      requires Valid() && prepared && |kT| == |nH|
    {
      var q := Compress(Not(UseIgm(kT, nH)), kT);
      |q| == 0 ||
        (&& apecModel.GetSpectrum(q).Ok?
         && (varSpec.Some? ==>
               && apecModel.GetSpectrum(q).value.variable.Some?
               && |apecModel.GetSpectrum(q).value.variable.value| == nvarElem))
    }

    /** The axes are valid and the grid sizes are their lengths. */
    predicate Shape() {
      Axes().Valid() && nT == |Tvals| && nD == |Dvals|
    }

    /** Row `row` is what the 2-D branch gives an in-table point for table `S`: the
        bilinear interpolation in the point's cell, divided by the density. */
    ghost predicate TableRowAt(S: Matrix, kT: real, nH: real, row: Spectrum)
      requires Shape() && |S| == nD * nT && Rectangular(S) && nH > 0.0
    {
      && PointCell(kT, nH).Some?
      && row == DivRow(CellRow(S, nD, nT, PointCell(kT, nH).value), nH)
    }

    /** Rows `c` and `m` are what the APEC fallback gives a point of temperature `kT`. */
    ghost predicate FallbackRowsAt(kT: real, c: Spectrum, m: Spectrum)
      reads this, apecModel
      requires Valid() && prepared
    {
      && apecModel.cf.Some? && apecModel.mf.Some?
      && c == apecModel.cf.value.At(kT) && m == apecModel.mf.value.At(kT)
    }

    /** Row `row` is what the APEC fallback gives variable element `e` at temperature `kT`. */
    ghost predicate FallbackVarRowAt(e: nat, kT: real, row: Spectrum)
      reads this, apecModel
      requires Valid() && prepared
    {
      && apecModel.vf.Some? && e < |apecModel.vf.value.ys|
      && row == apecModel.vf.value.Element(e).At(kT)
    }

    /** Line 215 can divide the variable planes and write them back: no variable element
        is tracked, at most one point is in the table, or there are as many in-table
        points as variable elements (`DivStackAsWritten`). */
    ghost predicate PlanesFit(kT: seq<real>, nH: seq<real>)
      reads this
      requires |kT| == |nH|
    {
      var n := Count(UseIgm(kT, nH));
      varSpec.None? || n <= 1 || n == nvarElem
    }

    /** The density line 215 divides variable plane `e` by: `nHi[e]`, the density of the
        `e`-th in-table point, or the only in-table density when there is one. */
    function PlaneDensity(kT: seq<real>, nH: seq<real>, e: nat): (d: real)
      requires |kT| == |nH|
      requires var n := Count(UseIgm(kT, nH)); n == 1 || e < n
      ensures d >= minTableNH
    {
      var mask := UseIgm(kT, nH);
      SelectedDensities(kT, nH);
      Compress(mask, nH)[PlaneIndex(e, Count(mask))]
    }

    /** Row `row` is what line 215 leaves for variable element `e` of in-table point `i`:
        the bilinear interpolation of that element in the point's cell, divided by
        `PlaneDensity`, which exists only when the planes fit. */
    ghost predicate PlaneRowAt(kT: seq<real>, nH: seq<real>, e: nat, i: nat, row: Spectrum)
      reads this
      requires Loaded() && |kT| == |nH| && i < |kT| && varSpec.Some? && e < |varSpec.value|
    {
      var n := Count(UseIgm(kT, nH));
      && PointCell(kT[i], nH[i]).Some?
      && (n == 1 || e < n)
      && row == DivRow(CellRow(varSpec.value[e], nD, nT, PointCell(kT[i], nH[i]).value), PlaneDensity(kT, nH, e))
    }

    /** With a single in-table point, line 215 divides every plane by that point's own
        density: the variable rows are then the point's table rows, as the per-point
        division `DivStack` intends. */
    lemma OnePointPlanes(kT: seq<real>, nH: seq<real>, e: nat, i: nat, row: Spectrum)
      requires Loaded() && |kT| == |nH| && i < |kT| && InTable(kT[i], nH[i])
      requires varSpec.Some? && e < |varSpec.value|
      requires Count(UseIgm(kT, nH)) == 1
      ensures PlaneRowAt(kT, nH, e, i, row) <==> TableRowAt(varSpec.value[e], kT[i], nH[i], row)
    {
      CompressAt(UseIgm(kT, nH), nH, i);
    }

    /** What `get_spectrum` returns: arrays of shape `(N, ne)` (and `(nvar_elem, N, ne)`)
        holding, row by row, the rows `MergedRows` describes. */
    ghost predicate Merged(kT: seq<real>, nH: seq<real>, out: Components)
      reads this, apecModel
      requires Valid() && prepared && |kT| == |nH|
    {
      MergedRows(kT, nH, out) && OutputWidths(out)
    }

    /** Every row of every component has one entry per energy bin. */
    ghost predicate OutputWidths(out: Components)
      reads this
    {
      && RowsOfWidth(out.cosmic, ne) && RowsOfWidth(out.metal, ne)
      && (out.variable.Some? ==> forall e :: 0 <= e < |out.variable.value| ==> RowsOfWidth(out.variable.value[e], ne))
    }

    /** The rows of `get_spectrum`: an in-table point gets the table's bilinear
        interpolation divided by its density; any other point gets the APEC interpolation
        at its temperature. */
    ghost predicate MergedRows(kT: seq<real>, nH: seq<real>, out: Components)
      reads this, apecModel
      requires Valid() && prepared && |kT| == |nH|
    {
      && |out.cosmic| == |kT| && |out.metal| == |kT|
      && (out.variable.Some? <==> varSpec.Some?)
      && (out.variable.Some? ==>
            && |out.variable.value| == nvarElem
            && forall e :: 0 <= e < nvarElem ==> |out.variable.value[e]| == |kT|)
      && forall i :: 0 <= i < |kT| ==>
           if InTable(kT[i], nH[i]) then
             && TableRowAt(cosmicSpec, kT[i], nH[i], out.cosmic[i])
             && TableRowAt(metalSpec, kT[i], nH[i], out.metal[i])
             && (out.variable.Some? ==> forall e :: 0 <= e < nvarElem ==>
                   PlaneRowAt(kT, nH, e, i, out.variable.value[e][i]))
           else
             && FallbackRowsAt(kT[i], out.cosmic[i], out.metal[i])
             && (out.variable.Some? ==> forall e :: 0 <= e < nvarElem ==>
                   FallbackVarRowAt(e, kT[i], out.variable.value[e][i]))
    }

    /** The rows of a compressed query, point by point: each is the bilinear interpolation
        in that point's cell, divided by that point's density for the continuum and the
        metals, and by the density broadcasting pairs with the plane for a variable element
        (`DivStackAsWritten`). */
    ghost predicate DividedRows(cells: seq<Cell>, nHi: seq<real>, cRows: Matrix, mRows: Matrix, vRows: seq<Matrix>)
      reads this
      requires Loaded() && |cells| == |nHi|
      requires forall k :: 0 <= k < |cells| ==> InGrid(cells[k], nD, nT) && nHi[k] >= minTableNH
    {
      && |cRows| == |cells| && |mRows| == |cells|
      && |vRows| == (if varSpec.Some? then nvarElem else 0)
      && (forall e :: 0 <= e < |vRows| ==> |vRows[e]| == |cells|)
      && (|vRows| > 0 ==> |cells| == 1 || |vRows| == |cells|)
      && forall k :: 0 <= k < |cells| ==>
           && cRows[k] == DivRow(CellRow(cosmicSpec, nD, nT, cells[k]), nHi[k])
           && mRows[k] == DivRow(CellRow(metalSpec, nD, nT, cells[k]), nHi[k])
           && forall e :: 0 <= e < |vRows| ==>
                vRows[e][k] == DivRow(CellRow(varSpec.value[e], nD, nT, cells[k]), nHi[PlaneIndex(e, |cells|)])
    }

    /** Dividing the 2-D interpolation by the densities, as lines 212-215 do, gives the
        divided rows of the cells. */
    lemma Divided(cells: seq<Cell>, out: Components, nHi: seq<real>, cRows: Matrix, mRows: Matrix, vRows: seq<Matrix>)
      requires Loaded() && |cells| == |nHi| && |cells| >= 1
      requires forall k :: 0 <= k < |cells| ==> InGrid(cells[k], nD, nT) && nHi[k] >= minTableNH
      requires Interpolated(cells, out)
      requires cRows == DivRows(out.cosmic, nHi) && mRows == DivRows(out.metal, nHi)
      requires varSpec.Some? ==> DivStackAsWritten(out.variable.value, nHi) == Ok(vRows)
      requires varSpec.None? ==> vRows == []
      ensures DividedRows(cells, nHi, cRows, mRows, vRows)
    {
    }

    /** The rows the 2-D branch writes back: the interpolation of `kT[mask]`, `nH[mask]`
        divided row by row by the density, at rank `Rank(mask, i)`, is the table row of
        point `i`. */
    lemma CompressedTableRows(kT: seq<real>, nH: seq<real>, mask: seq<bool>, cells: seq<Cell>,
                              cRows: Matrix, mRows: Matrix, vRows: seq<Matrix>)
      requires Loaded() && |kT| == |nH| && mask == UseIgm(kT, nH)
      requires |cells| == Count(mask)
      requires forall k :: 0 <= k < |cells| ==>
                 InGrid(cells[k], nD, nT) && Compress(mask, nH)[k] >= minTableNH
      requires forall k :: 0 <= k < |cells| ==>
                 PointCell(Compress(mask, kT)[k], Compress(mask, nH)[k]) == Some(cells[k])
      requires DividedRows(cells, Compress(mask, nH), cRows, mRows, vRows)
      ensures |cRows| == Count(mask) && |mRows| == Count(mask)
      ensures |vRows| == (if varSpec.Some? then nvarElem else 0)
      ensures forall e :: 0 <= e < |vRows| ==> |vRows[e]| == Count(mask)
      ensures forall i :: 0 <= i < |kT| && mask[i] ==>
                && TableRowAt(cosmicSpec, kT[i], nH[i], cRows[Rank(mask, i)])
                && TableRowAt(metalSpec, kT[i], nH[i], mRows[Rank(mask, i)])
                && forall e :: 0 <= e < |vRows| ==>
                     PlaneRowAt(kT, nH, e, i, vRows[e][Rank(mask, i)])
    {
      var nHi := Compress(mask, nH);
      forall i | 0 <= i < |kT| && mask[i]
        ensures TableRowAt(cosmicSpec, kT[i], nH[i], cRows[Rank(mask, i)])
        ensures TableRowAt(metalSpec, kT[i], nH[i], mRows[Rank(mask, i)])
        ensures forall e :: 0 <= e < |vRows| ==>
                  PlaneRowAt(kT, nH, e, i, vRows[e][Rank(mask, i)])
      {
        var k := Rank(mask, i);
        CompressAt(mask, kT, i);
        CompressAt(mask, nH, i);
        PointRows(kT[i], nH[i], cells[k], cRows[k], mRows[k]);
        forall e | 0 <= e < |vRows| ensures PlaneRowAt(kT, nH, e, i, vRows[e][k]) {
          PointPlaneRow(kT, nH, i, cells[k], e, vRows[e][k]);
        }
      }
    }

    /** A point whose rows are the interpolation in its own cell, divided by its
        density, has its table rows. */
    lemma PointRows(kT: real, nH: real, c: Cell, cRow: Spectrum, mRow: Spectrum)
      requires Loaded() && nH >= minTableNH && PointCell(kT, nH) == Some(c) && InGrid(c, nD, nT)
      requires cRow == DivRow(CellRow(cosmicSpec, nD, nT, c), nH)
      requires mRow == DivRow(CellRow(metalSpec, nD, nT, c), nH)
      ensures TableRowAt(cosmicSpec, kT, nH, cRow) && TableRowAt(metalSpec, kT, nH, mRow)
    {
    }

    /** A variable row that is the interpolation in in-table point `i`'s own cell, divided
        by the density broadcasting pairs with plane `e`, is what line 215 leaves there. */
    lemma PointPlaneRow(kT: seq<real>, nH: seq<real>, i: nat, c: Cell, e: nat, row: Spectrum)
      requires Loaded() && |kT| == |nH| && i < |kT|
      requires varSpec.Some? && e < |varSpec.value|
      requires PointCell(kT[i], nH[i]) == Some(c)
      requires var n := Count(UseIgm(kT, nH)); n == 1 || e < n
      requires row == DivRow(CellRow(varSpec.value[e], nD, nT, c), PlaneDensity(kT, nH, e))
      ensures PlaneRowAt(kT, nH, e, i, row)
    {
    }

    /** The in-table points' densities are all at least the table's lowest. */
    lemma SelectedDensities(kT: seq<real>, nH: seq<real>)
      requires |kT| == |nH|
      ensures forall k :: 0 <= k < Count(UseIgm(kT, nH)) ==> Compress(UseIgm(kT, nH), nH)[k] >= minTableNH
    {
      var mask := UseIgm(kT, nH);
      forall k | 0 <= k < Count(mask) ensures Compress(mask, nH)[k] >= minTableNH {
        var i := Unrank(mask, k);
        CompressAt(mask, nH, i);
      }
    }

    /** An in-table point without a cell, found among the compressed points, is an
        in-table point of the original query without a cell. */
    lemma SelectedMissingCell(kT: seq<real>, nH: seq<real>, k: nat)
      requires |kT| == |nH| && units.Valid() && Bounds() && Axes().Valid()
      requires k < Count(UseIgm(kT, nH))
      requires PointCell(Compress(UseIgm(kT, nH), kT)[k], Compress(UseIgm(kT, nH), nH)[k]).None?
      ensures !TableAnswers(kT, nH)
    {
      var mask := UseIgm(kT, nH);
      var i := Unrank(mask, k);
      CompressAt(mask, kT, i);
      CompressAt(mask, nH, i);
      assert InTable(kT[i], nH[i]) && PointCell(kT[i], nH[i]).None?;
      InTableCell(kT[i], nH[i]);
    }

    /** When every compressed point has a cell, the 2-D branch answers the whole query. */
    lemma SelectedCells(kT: seq<real>, nH: seq<real>)
      requires |kT| == |nH| && units.Valid() && Bounds() && Axes().Valid()
      requires forall k :: 0 <= k < Count(UseIgm(kT, nH)) ==>
                 PointCell(Compress(UseIgm(kT, nH), kT)[k], Compress(UseIgm(kT, nH), nH)[k]).Some?
      ensures TableAnswers(kT, nH)
    {
      var mask := UseIgm(kT, nH);
      forall i | 0 <= i < |kT| && InTable(kT[i], nH[i])
        ensures kT[i] != minTableKT && nH[i] != minTableNH
      {
        CompressAt(mask, kT, i);
        CompressAt(mask, nH, i);
        InTableCell(kT[i], nH[i]);
      }
    }

    /** Rows in the order of the in-table points: the one at rank `Rank(mask, i)` is the
        table row of in-table point `i`, for every component. */
    ghost predicate TableRowsAtRanks(kT: seq<real>, nH: seq<real>, cRows: Matrix, mRows: Matrix, vRows: seq<Matrix>)
      reads this
      requires Loaded() && |kT| == |nH|
    {
      var mask := UseIgm(kT, nH);
      && |cRows| == Count(mask) && |mRows| == Count(mask)
      && |vRows| == (if varSpec.Some? then nvarElem else 0)
      && (forall e :: 0 <= e < |vRows| ==> |vRows[e]| == Count(mask))
      && forall i :: 0 <= i < |kT| && mask[i] ==>
           && TableRowAt(cosmicSpec, kT[i], nH[i], cRows[Rank(mask, i)])
           && TableRowAt(metalSpec, kT[i], nH[i], mRows[Rank(mask, i)])
           && forall e :: 0 <= e < |vRows| ==>
                PlaneRowAt(kT, nH, e, i, vRows[e][Rank(mask, i)])
    }

    /** The rows the `n_igm > 0` branch writes: the in-table points `kT[use_igm]`,
        `nH[use_igm]` interpolated on the 2-D table and divided by density, in the order
        of the selected points. It fails when an in-table point has no cell, and otherwise
        when the variable planes do not fit line 215's broadcast. */
    method TableRows(kT: seq<real>, nH: seq<real>)
      returns (err: Option<Error>, cRows: Matrix, mRows: Matrix, vRows: seq<Matrix>)
      requires Valid() && prepared && |kT| == |nH|
      ensures err.None? <==> TableAnswers(kT, nH) && PlanesFit(kT, nH)
      ensures err.Some? ==> err.value == (if TableAnswers(kT, nH) then ShapeMismatch else InvalidCellIndex)
      ensures err.None? ==> Loaded() && TableRowsAtRanks(kT, nH, cRows, mRows, vRows)
    {
      var useIgm := UseIgm(kT, nH);
      if Count(useIgm) == 0 {
        NoneSelected(useIgm);
        var nvar := if varSpec.Some? then nvarElem else 0;
        return None, [], [], seq(nvar, e => []);
      }
      var kTi, nHi := Compress(useIgm, kT), Compress(useIgm, nH);
      SelectedDensities(kT, nH);
      var r2 := GetSpectrum2d(kTi, nHi);
      if r2.Err? {
        var k :| 0 <= k < |kTi| && PointCell(kTi[k], nHi[k]).None?;
        SelectedMissingCell(kT, nH, k);
        return Some(r2.error), [], [], [];
      }
      SelectedCells(kT, nH);
      var out, cells := r2.value, Cells(kTi, nHi).value;
      cRows, mRows := DivRows(out.cosmic, nHi), DivRows(out.metal, nHi);
      vRows := [];
      if varSpec.Some? {
        var planes := DivStackAsWritten(out.variable.value, nHi);
        if planes.Err? {
          return Some(planes.error), [], [], [];
        }
        vRows := planes.value;
      }
      Divided(cells, out, nHi, cRows, mRows, vRows);
      CompressedTableRows(kT, nH, useIgm, cells, cRows, mRows, vRows);
      err := None;
    }

    /** The `n_igm > 0` branch of `get_spectrum`: writes the table rows of the in-table
        points into the result arrays and leaves the other points' rows alone. */
    method FillFromTable(kT: seq<real>, nH: seq<real>, cspec: array<Spectrum>, mspec: array<Spectrum>,
                         vspec: array2<Spectrum>) returns (err: Option<Error>)
      requires Valid() && prepared && |kT| == |nH|
      requires cspec.Length == |kT| && mspec.Length == |kT| && cspec != mspec
      requires vspec.Length0 == (if varSpec.Some? then nvarElem else 0) && vspec.Length1 == |kT|
      modifies cspec, mspec, vspec
      ensures err.None? <==> TableAnswers(kT, nH) && PlanesFit(kT, nH)
      ensures err.Some? ==> err.value == (if TableAnswers(kT, nH) then ShapeMismatch else InvalidCellIndex)
      ensures err.None? ==> forall i :: 0 <= i < |kT| ==>
                if InTable(kT[i], nH[i]) then
                  && TableRowAt(cosmicSpec, kT[i], nH[i], cspec[i])
                  && TableRowAt(metalSpec, kT[i], nH[i], mspec[i])
                  && forall e :: 0 <= e < vspec.Length0 ==>
                       PlaneRowAt(kT, nH, e, i, vspec[e, i])
                else
                  && cspec[i] == old(cspec[i]) && mspec[i] == old(mspec[i])
                  && forall e :: 0 <= e < vspec.Length0 ==> vspec[e, i] == old(vspec[e, i])
    {
      var cRows, mRows, vRows;
      err, cRows, mRows, vRows := TableRows(kT, nH);
      if err.Some? {
        return;
      }
      WriteTableRows(kT, nH, cspec, mspec, vspec, cRows, mRows, vRows);
    }

    /** `cspec[use_igm] = ...; mspec[use_igm] = ...; vspec[:, use_igm, :] = ...`. */
    method WriteTableRows(kT: seq<real>, nH: seq<real>, cspec: array<Spectrum>, mspec: array<Spectrum>,
                          vspec: array2<Spectrum>, cRows: Matrix, mRows: Matrix, vRows: seq<Matrix>)
      requires Loaded() && |kT| == |nH| && TableRowsAtRanks(kT, nH, cRows, mRows, vRows)
      requires cspec.Length == |kT| && mspec.Length == |kT| && cspec != mspec
      requires vspec.Length0 == (if varSpec.Some? then nvarElem else 0) && vspec.Length1 == |kT|
      modifies cspec, mspec, vspec
      ensures forall i :: 0 <= i < |kT| ==>
                if InTable(kT[i], nH[i]) then
                  && TableRowAt(cosmicSpec, kT[i], nH[i], cspec[i])
                  && TableRowAt(metalSpec, kT[i], nH[i], mspec[i])
                  && forall e :: 0 <= e < vspec.Length0 ==>
                       PlaneRowAt(kT, nH, e, i, vspec[e, i])
                else
                  && cspec[i] == old(cspec[i]) && mspec[i] == old(mspec[i])
                  && forall e :: 0 <= e < vspec.Length0 ==> vspec[e, i] == old(vspec[e, i])
    {
      WriteTableSpectra(kT, nH, cspec, mspec, cRows, mRows, vRows);
      WriteTablePlanes(kT, nH, vspec, cRows, mRows, vRows);
    }

    /** `cspec[use_igm] = ...; mspec[use_igm] = ...`. */
    method WriteTableSpectra(kT: seq<real>, nH: seq<real>, cspec: array<Spectrum>, mspec: array<Spectrum>,
                             cRows: Matrix, mRows: Matrix, vRows: seq<Matrix>)
      requires Loaded() && |kT| == |nH| && TableRowsAtRanks(kT, nH, cRows, mRows, vRows)
      requires cspec.Length == |kT| && mspec.Length == |kT| && cspec != mspec
      modifies cspec, mspec
      ensures forall i :: 0 <= i < |kT| ==>
                if InTable(kT[i], nH[i]) then
                  && TableRowAt(cosmicSpec, kT[i], nH[i], cspec[i])
                  && TableRowAt(metalSpec, kT[i], nH[i], mspec[i])
                else
                  && cspec[i] == old(cspec[i]) && mspec[i] == old(mspec[i])
    {
      var useIgm := UseIgm(kT, nH);
      MaskedAssign(cspec, useIgm, cRows);
      MaskedAssign(mspec, useIgm, mRows);
    }

    /** `vspec[:, use_igm, :] = ...`. */
    method WriteTablePlanes(kT: seq<real>, nH: seq<real>, vspec: array2<Spectrum>,
                            cRows: Matrix, mRows: Matrix, vRows: seq<Matrix>)
      requires Loaded() && |kT| == |nH| && TableRowsAtRanks(kT, nH, cRows, mRows, vRows)
      requires vspec.Length0 == (if varSpec.Some? then nvarElem else 0) && vspec.Length1 == |kT|
      modifies vspec
      ensures forall i :: 0 <= i < |kT| ==>
                if InTable(kT[i], nH[i]) then
                  forall e :: 0 <= e < vspec.Length0 ==> PlaneRowAt(kT, nH, e, i, vspec[e, i])
                else
                  forall e :: 0 <= e < vspec.Length0 ==> vspec[e, i] == old(vspec[e, i])
    {
      MaskedAssignPlanes(vspec, UseIgm(kT, nH), vRows);
    }

    /** Rows in the order of the out-of-table points: the one at rank
        `Rank(Not(mask), i)` is the APEC row of out-of-table point `i`. */
    ghost predicate FallbackRowsAtRanks(kT: seq<real>, nH: seq<real>, cRows: Matrix, mRows: Matrix, vRows: seq<Matrix>)
      reads this, apecModel
      requires Valid() && prepared && |kT| == |nH|
    {
      var mask := Not(UseIgm(kT, nH));
      && |cRows| == Count(mask) && |mRows| == Count(mask)
      && |vRows| == (if varSpec.Some? then nvarElem else 0)
      && (forall e :: 0 <= e < |vRows| ==> |vRows[e]| == Count(mask))
      && forall i :: 0 <= i < |kT| && mask[i] ==>
           && FallbackRowsAt(kT[i], cRows[Rank(mask, i)], mRows[Rank(mask, i)])
           && forall e :: 0 <= e < |vRows| ==> FallbackVarRowAt(e, kT[i], vRows[e][Rank(mask, i)])
    }

    /** The rows the `n_apec > 0` branch writes: the APEC model evaluated at the
        out-of-table temperatures `kT[use_apec]`, in the order of the selected points. It
        fails when the APEC model does, and when it has a different number of variable
        elements than the table (the assignment into `vspec` cannot broadcast). */
    method ApecRows(kT: seq<real>, nH: seq<real>)
      returns (err: Option<Error>, cRows: Matrix, mRows: Matrix, vRows: seq<Matrix>)
      requires Valid() && prepared && |kT| == |nH|
      ensures err.None? <==> FallbackAnswers(kT, nH)
      ensures err.None? ==> FallbackRowsAtRanks(kT, nH, cRows, mRows, vRows)
    {
      var useApec := Not(UseIgm(kT, nH));
      var q := Compress(useApec, kT);
      var nvar := if varSpec.Some? then nvarElem else 0;
      if |q| == 0 {
        NoneSelected(useApec);
        return None, [], [], seq(nvar, e => []);
      }
      var r1 := apecModel.GetSpectrum(q);
      if r1.Err? {
        return Some(r1.error), [], [], [];
      }
      var out := r1.value;
      cRows, mRows := out.cosmic, out.metal;
      vRows := [];
      if varSpec.Some? {
        if out.variable.None? || |out.variable.value| != nvarElem {
          return Some(ShapeMismatch), [], [], [];
        }
        vRows := out.variable.value;
      }
      forall i | 0 <= i < |kT| && useApec[i] ensures q[Rank(useApec, i)] == kT[i] {
        CompressAt(useApec, kT, i);
      }
      err := None;
    }

    /** The `n_apec > 0` branch of `get_spectrum`: writes the APEC rows of the
        out-of-table points into the result arrays and leaves the other points' rows
        alone. */
    method FillFromApec(kT: seq<real>, nH: seq<real>, cspec: array<Spectrum>, mspec: array<Spectrum>,
                        vspec: array2<Spectrum>) returns (err: Option<Error>)
      requires Valid() && prepared && |kT| == |nH|
      requires cspec.Length == |kT| && mspec.Length == |kT| && cspec != mspec
      requires vspec.Length0 == (if varSpec.Some? then nvarElem else 0) && vspec.Length1 == |kT|
      modifies cspec, mspec, vspec
      ensures err.None? <==> FallbackAnswers(kT, nH)
      ensures err.None? ==> forall i :: 0 <= i < |kT| ==>
                if !InTable(kT[i], nH[i]) then
                  && FallbackRowsAt(kT[i], cspec[i], mspec[i])
                  && forall e :: 0 <= e < vspec.Length0 ==> FallbackVarRowAt(e, kT[i], vspec[e, i])
                else
                  && cspec[i] == old(cspec[i]) && mspec[i] == old(mspec[i])
                  && forall e :: 0 <= e < vspec.Length0 ==> vspec[e, i] == old(vspec[e, i])
    {
      var cRows, mRows, vRows;
      err, cRows, mRows, vRows := ApecRows(kT, nH);
      if err.Some? {
        return;
      }
      WriteApecRows(kT, nH, cspec, mspec, vspec, cRows, mRows, vRows);
    }

    /** `cspec[use_apec] = ...; mspec[use_apec] = ...; vspec[:, use_apec, :] = ...`. */
    method WriteApecRows(kT: seq<real>, nH: seq<real>, cspec: array<Spectrum>, mspec: array<Spectrum>,
                         vspec: array2<Spectrum>, cRows: Matrix, mRows: Matrix, vRows: seq<Matrix>)
      requires Valid() && prepared && |kT| == |nH| && FallbackRowsAtRanks(kT, nH, cRows, mRows, vRows)
      requires cspec.Length == |kT| && mspec.Length == |kT| && cspec != mspec
      requires vspec.Length0 == (if varSpec.Some? then nvarElem else 0) && vspec.Length1 == |kT|
      modifies cspec, mspec, vspec
      ensures forall i :: 0 <= i < |kT| ==>
                if !InTable(kT[i], nH[i]) then
                  && FallbackRowsAt(kT[i], cspec[i], mspec[i])
                  && forall e :: 0 <= e < vspec.Length0 ==> FallbackVarRowAt(e, kT[i], vspec[e, i])
                else
                  && cspec[i] == old(cspec[i]) && mspec[i] == old(mspec[i])
                  && forall e :: 0 <= e < vspec.Length0 ==> vspec[e, i] == old(vspec[e, i])
    {
      WriteApecSpectra(kT, nH, cspec, mspec, cRows, mRows, vRows);
      WriteApecPlanes(kT, nH, vspec, cRows, mRows, vRows);
    }

    /** `cspec[use_apec] = ...; mspec[use_apec] = ...`. */
    method WriteApecSpectra(kT: seq<real>, nH: seq<real>, cspec: array<Spectrum>, mspec: array<Spectrum>,
                            cRows: Matrix, mRows: Matrix, vRows: seq<Matrix>)
      requires Valid() && prepared && |kT| == |nH| && FallbackRowsAtRanks(kT, nH, cRows, mRows, vRows)
      requires cspec.Length == |kT| && mspec.Length == |kT| && cspec != mspec
      modifies cspec, mspec
      ensures forall i :: 0 <= i < |kT| ==>
                if !InTable(kT[i], nH[i]) then FallbackRowsAt(kT[i], cspec[i], mspec[i])
                else cspec[i] == old(cspec[i]) && mspec[i] == old(mspec[i])
    {
      var useApec := Not(UseIgm(kT, nH));
      MaskedAssign(cspec, useApec, cRows);
      MaskedAssign(mspec, useApec, mRows);
    }

    /** `vspec[:, use_apec, :] = ...`. */
    method WriteApecPlanes(kT: seq<real>, nH: seq<real>, vspec: array2<Spectrum>,
                           cRows: Matrix, mRows: Matrix, vRows: seq<Matrix>)
      requires Valid() && prepared && |kT| == |nH| && FallbackRowsAtRanks(kT, nH, cRows, mRows, vRows)
      requires vspec.Length0 == (if varSpec.Some? then nvarElem else 0) && vspec.Length1 == |kT|
      modifies vspec
      ensures forall i :: 0 <= i < |kT| ==>
                if !InTable(kT[i], nH[i]) then
                  forall e :: 0 <= e < vspec.Length0 ==> FallbackVarRowAt(e, kT[i], vspec[e, i])
                else
                  forall e :: 0 <= e < vspec.Length0 ==> vspec[e, i] == old(vspec[e, i])
    {
      MaskedAssignPlanes(vspec, Not(UseIgm(kT, nH)), vRows);
    }

    /** The body of `get_spectrum` after the masks: zero-filled result arrays, the
        in-table points written by the 2-D branch, then the other points written by the
        APEC branch. */
    method Fill(kT: seq<real>, nH: seq<real>)
      returns (err: Option<Error>, cspec: array<Spectrum>, mspec: array<Spectrum>, vspec: array2<Spectrum>)
      requires Valid() && prepared && |kT| == |nH|
      ensures fresh(cspec) && fresh(mspec) && fresh(vspec)
      ensures cspec.Length == |kT| && mspec.Length == |kT|
      ensures vspec.Length0 == (if varSpec.Some? then nvarElem else 0) && vspec.Length1 == |kT|
      ensures err.None? <==> TableAnswers(kT, nH) && PlanesFit(kT, nH) && FallbackAnswers(kT, nH)
      ensures !TableAnswers(kT, nH) ==> err == Some(InvalidCellIndex)
      ensures TableAnswers(kT, nH) && !PlanesFit(kT, nH) ==> err == Some(ShapeMismatch)
      ensures err.None? ==> forall i :: 0 <= i < |kT| ==>
                if InTable(kT[i], nH[i]) then
                  && TableRowAt(cosmicSpec, kT[i], nH[i], cspec[i])
                  && TableRowAt(metalSpec, kT[i], nH[i], mspec[i])
                  && forall e :: 0 <= e < vspec.Length0 ==>
                       PlaneRowAt(kT, nH, e, i, vspec[e, i])
                else
                  && FallbackRowsAt(kT[i], cspec[i], mspec[i])
                  && forall e :: 0 <= e < vspec.Length0 ==> FallbackVarRowAt(e, kT[i], vspec[e, i])
    {
      var n := |kT|;
      cspec := ZeroRows(n, ne);
      mspec := ZeroRows(n, ne);
      var nvar := if varSpec.Some? then nvarElem else 0;
      vspec := ZeroPlanes(nvar, n, ne);
      err := FillFromTable(kT, nH, cspec, mspec, vspec);
      if err.Some? {
        return;
      }
      err := FillFromApec(kT, nH, cspec, mspec, vspec);
    }

    /** `get_spectrum` for one temperature and one density per point: it fails before
        `prepare_spectrum`, and otherwise succeeds exactly when both branches do; the 2-D
        branch runs first, so its errors are the ones reported. */
    method GetSpectrum(kT: seq<real>, nH: seq<real>) returns (r: Result<Components>)
      requires Valid() && |kT| == |nH|
      ensures !prepared ==> r == Err(MissingAttribute("ne"))
      ensures r.Ok? <==> prepared && TableAnswers(kT, nH) && PlanesFit(kT, nH) && FallbackAnswers(kT, nH)
      ensures prepared && !TableAnswers(kT, nH) ==> r == Err(InvalidCellIndex)
      ensures prepared && TableAnswers(kT, nH) && !PlanesFit(kT, nH) ==> r == Err(ShapeMismatch)
      ensures r.Ok? ==> Merged(kT, nH, r.value)
    {
      if !prepared {
        return Err(MissingAttribute("ne"));
      }
      var err, cspec, mspec, vspec := Fill(kT, nH);
      if err.Some? {
        return Err(err.value);
      }
      var planes := Planes(vspec);
      var v := if varSpec.Some? then Some(planes) else None;
      FilledIsMerged(kT, nH, cspec, mspec, vspec, planes);
      r := Ok(Components(cspec[..], mspec[..], v));
    }

    /** The arrays `fill` leaves, read back as sequences, are the merged answer. */
    lemma FilledIsMerged(kT: seq<real>, nH: seq<real>, cspec: array<Spectrum>, mspec: array<Spectrum>,
                         vspec: array2<Spectrum>, planes: seq<Matrix>)
      requires Valid() && prepared && |kT| == |nH|
      requires cspec.Length == |kT| && mspec.Length == |kT|
      requires vspec.Length0 == (if varSpec.Some? then nvarElem else 0) && vspec.Length1 == |kT|
      requires |planes| == vspec.Length0
      requires forall e :: 0 <= e < vspec.Length0 ==> |planes[e]| == vspec.Length1
      requires forall e, i :: 0 <= e < vspec.Length0 && 0 <= i < vspec.Length1 ==> planes[e][i] == vspec[e, i]
      requires forall i :: 0 <= i < |kT| ==>
                if InTable(kT[i], nH[i]) then
                  && TableRowAt(cosmicSpec, kT[i], nH[i], cspec[i])
                  && TableRowAt(metalSpec, kT[i], nH[i], mspec[i])
                  && forall e :: 0 <= e < vspec.Length0 ==>
                       PlaneRowAt(kT, nH, e, i, vspec[e, i])
                else
                  && FallbackRowsAt(kT[i], cspec[i], mspec[i])
                  && forall e :: 0 <= e < vspec.Length0 ==> FallbackVarRowAt(e, kT[i], vspec[e, i])
      ensures Merged(kT, nH, Components(cspec[..], mspec[..], if varSpec.Some? then Some(planes) else None))
    {
      FilledRows(kT, nH, cspec, mspec, vspec, planes);
      MergedWidths(kT, nH, Components(cspec[..], mspec[..], if varSpec.Some? then Some(planes) else None));
    }

    /** The arrays `fill` leaves, read back as sequences, hold the merged rows. */
    lemma FilledRows(kT: seq<real>, nH: seq<real>, cspec: array<Spectrum>, mspec: array<Spectrum>,
                    vspec: array2<Spectrum>, planes: seq<Matrix>)
      requires Valid() && prepared && |kT| == |nH|
      requires cspec.Length == |kT| && mspec.Length == |kT|
      requires vspec.Length0 == (if varSpec.Some? then nvarElem else 0) && vspec.Length1 == |kT|
      requires |planes| == vspec.Length0
      requires forall e :: 0 <= e < vspec.Length0 ==> |planes[e]| == vspec.Length1
      requires forall e, i :: 0 <= e < vspec.Length0 && 0 <= i < vspec.Length1 ==> planes[e][i] == vspec[e, i]
      requires forall i :: 0 <= i < |kT| ==>
                if InTable(kT[i], nH[i]) then
                  && TableRowAt(cosmicSpec, kT[i], nH[i], cspec[i])
                  && TableRowAt(metalSpec, kT[i], nH[i], mspec[i])
                  && forall e :: 0 <= e < vspec.Length0 ==>
                       PlaneRowAt(kT, nH, e, i, vspec[e, i])
                else
                  && FallbackRowsAt(kT[i], cspec[i], mspec[i])
                  && forall e :: 0 <= e < vspec.Length0 ==> FallbackVarRowAt(e, kT[i], vspec[e, i])
      ensures MergedRows(kT, nH, Components(cspec[..], mspec[..], if varSpec.Some? then Some(planes) else None))
    {
    }

    /** The merged rows have one entry per energy bin, whichever branch gave them. */
    lemma MergedWidths(kT: seq<real>, nH: seq<real>, out: Components)
      requires Valid() && prepared && |kT| == |nH| && MergedRows(kT, nH, out)
      ensures OutputWidths(out)
    {
      forall i | 0 <= i < |kT| ensures |out.cosmic[i]| == ne && |out.metal[i]| == ne {
        if InTable(kT[i], nH[i]) {
          TableRowWidth(cosmicSpec, kT[i], nH[i], out.cosmic[i]);
          TableRowWidth(metalSpec, kT[i], nH[i], out.metal[i]);
        } else {
          FallbackRowWidth(kT[i], out.cosmic[i], out.metal[i]);
        }
      }
      if out.variable.Some? {
        var v := out.variable.value;
        forall e | 0 <= e < |v| ensures RowsOfWidth(v[e], ne) {
          forall i | 0 <= i < |v[e]| ensures |v[e][i]| == ne {
            if InTable(kT[i], nH[i]) {
              PlaneRowWidth(kT, nH, e, i, v[e][i]);
            } else {
              FallbackVarRowWidth(e, kT[i], v[e][i]);
            }
          }
        }
      }
    }

    /** A row the 2-D branch gives has one entry per energy bin. */
    lemma TableRowWidth(S: Matrix, kT: real, nH: real, row: Spectrum)
      requires Shape() && |S| == nD * nT && Rectangular(S) && RowsOfWidth(S, ne) && nH > 0.0
      requires TableRowAt(S, kT, nH, row)
      ensures |row| == ne
    {
    }

    /** So does a variable row of the 2-D branch. */
    lemma PlaneRowWidth(kT: seq<real>, nH: seq<real>, e: nat, i: nat, row: Spectrum)
      requires Loaded() && |kT| == |nH| && i < |kT| && varSpec.Some? && e < |varSpec.value|
      requires PlaneRowAt(kT, nH, e, i, row)
      ensures |row| == ne
    {
    }

    /** The rows the APEC fallback gives have one entry per energy bin. */
    lemma FallbackRowWidth(kT: real, c: Spectrum, m: Spectrum)
      requires Valid() && prepared && FallbackRowsAt(kT, c, m)
      ensures |c| == ne && |m| == ne
    {
    }

    /** So does the fallback row of every variable element. */
    lemma FallbackVarRowWidth(e: nat, kT: real, row: Spectrum)
      requires Valid() && prepared && FallbackVarRowAt(e, kT, row)
      ensures |row| == ne
    {
    }
  }
}
