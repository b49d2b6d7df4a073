/** `TableApecModel` (pyxsim/spectral_models.py): the 1-D thermal emission model. Its
    `prepare_spectrum` cuts a temperature window out of the APEC table and builds linear
    interpolants over it; `get_spectrum` evaluates them at the queried temperatures. */
module Apec {
  import opened Common
  import opened Search
  import opened Interp

  /** What the model uses of soxs's `ApecGenerator`: the tabulated temperature axis
      (keV), the energy bin edges, and the table lookup `_get_table(indices, zobs, 0.0)`,
      whose atomic physics and redshifting are not part of this model. */
  datatype ApecGenerator = ApecGenerator(
    Tvals: seq<real>,
    ebins: seq<real>,
    getTable: (seq<int>, real) -> Components)
  {
    /** The loader's promise: a strictly increasing axis, and one row per requested
        temperature index in every component, all rows of one length. */
    function Table(idx: seq<int>, z: real): Components { getTable(idx, z) }

    ghost predicate Valid() {
      && StrictlyIncreasing(Tvals)
      && forall idx: seq<int>, z: real :: TableShaped(Table(idx, z), |idx|)
    }

    lemma TableAt(idx: seq<int>, z: real)
      requires Valid()
      ensures TableShaped(Table(idx, z), |idx|)
    {
    }
  }

  ghost predicate TableShaped(t: Components, rows: nat) {
    && |t.cosmic| == rows && Rectangular(t.cosmic)
    && |t.metal| == rows && Rectangular(t.metal)
    && (t.variable.Some? ==> forall e :: 0 <= e < |t.variable.value| ==>
          |t.variable.value[e]| == rows && Rectangular(t.variable.value[e]))
  }

  /** Every row of every component has `width` entries, one per energy bin. */
  ghost predicate TableWidth(t: Components, width: nat) {
    && RowsOfWidth(t.cosmic, width) && RowsOfWidth(t.metal, width)
    && (t.variable.Some? ==> forall e :: 0 <= e < |t.variable.value| ==> RowsOfWidth(t.variable.value[e], width))
  }

  /** `max(searchsorted(Tvals, kT_min) - 1, 0)`: the first index of the window. */
  function WindowMin(Tvals: seq<real>, kTMin: real): (lo: int)
    ensures 0 <= lo && (lo < |Tvals| || lo == 0)
    ensures lo > 0 ==> Tvals[lo] < kTMin
  {
    var k := SearchLeft(Tvals, kTMin) - 1;
    if k > 0 then k else 0
  }

  /** `min(searchsorted(Tvals, kT_max) + 1, nT - 1)`: the end (exclusive) of the window. */
  function WindowMax(Tvals: seq<real>, kTMax: real): (hi: int)
    ensures hi <= |Tvals| - 1
    ensures hi < |Tvals| - 1 ==> 1 <= hi && kTMax <= Tvals[hi - 1]
  {
    var k := SearchLeft(Tvals, kTMax) + 1;
    if k < |Tvals| - 1 then k else |Tvals| - 1
  }

  /** `list(range(lo, hi))`. */
  function IndexRange(lo: int, hi: int): (r: seq<int>)
    ensures |r| == if lo < hi then hi - lo else 0
    ensures forall i :: 0 <= i < |r| ==> r[i] == lo + i
  {
    if lo < hi then seq(hi - lo, i requires 0 <= i < hi - lo => lo + i) else []
  }

  /** The temperature indices whose table rows `prepare_spectrum` fetches: consecutive
      indices from the window's first, every one of them a node of the table. */
  function WindowIndices(Tvals: seq<real>, kTMin: real, kTMax: real): (idx: seq<int>)
    ensures forall i :: 0 <= i < |idx| ==> idx[i] == WindowMin(Tvals, kTMin) + i && idx[i] < |Tvals|
  {
    IndexRange(WindowMin(Tvals, kTMin), WindowMax(Tvals, kTMax))
  }

  /** `Tvals[idx_min:idx_max]`: the temperature nodes of the window, one per fetched
      index. */
  function Window(Tvals: seq<real>, kTMin: real, kTMax: real): (w: seq<real>)
    ensures |w| == |WindowIndices(Tvals, kTMin, kTMax)|
  {
    PySlice(Tvals, WindowMin(Tvals, kTMin), WindowMax(Tvals, kTMax))
  }

  /** The window is the contiguous run of nodes whose indices are fetched: node `i` of
      the window is the table node at the `i`-th fetched index, and a window cut out of a
      strictly increasing axis is strictly increasing. */
  lemma WindowIndexed(Tvals: seq<real>, kTMin: real, kTMax: real)
    ensures var w, idx := Window(Tvals, kTMin, kTMax), WindowIndices(Tvals, kTMin, kTMax);
            && |w| == |idx|
            && forall i :: 0 <= i < |w| ==> 0 <= idx[i] < |Tvals| && w[i] == Tvals[idx[i]]
    ensures StrictlyIncreasing(Tvals) ==> StrictlyIncreasing(Window(Tvals, kTMin, kTMax))
  {
    var lo, hi := WindowMin(Tvals, kTMin), WindowMax(Tvals, kTMax);
    if lo < hi {
      assert Window(Tvals, kTMin, kTMax) == Tvals[lo..hi];
      if StrictlyIncreasing(Tvals) {
        SubrangeIncreasing(Tvals, lo, hi);
      }
    } else {
      assert Window(Tvals, kTMin, kTMax) == [];
    }
  }

  /** The padding rules: both bounds stay inside the table; when `kT_min` is above the
      first node the window starts at the node just below it, and otherwise at node 0;
      when `kT_max` is at most the second-to-last node the last window node is the first
      node at or above it; beyond those two bracketing nodes the window takes no extra
      node; and the last table node is never in the window (the upper bound is clamped
      to `nT - 1` and the slice is half-open). */
  lemma WindowContainment(Tvals: seq<real>, kTMin: real, kTMax: real)
    requires StrictlyIncreasing(Tvals) && |Tvals| >= 2
    ensures var lo, hi, n := WindowMin(Tvals, kTMin), WindowMax(Tvals, kTMax), |Tvals|;
            && 0 <= lo < n && hi <= n - 1
            && (Tvals[0] < kTMin ==> Tvals[lo] < kTMin)
            && (kTMin <= Tvals[0] ==> lo == 0)
            && (kTMin <= Tvals[n - 1] ==> kTMin <= Tvals[lo + 1])
            && (kTMax <= Tvals[n - 2] ==> 1 <= hi && kTMax <= Tvals[hi - 1])
            && (hi >= 2 ==> Tvals[hi - 2] < kTMax)
            && Tvals[n - 1] !in Window(Tvals, kTMin, kTMax)
  {
    var lo, hi, n := WindowMin(Tvals, kTMin), WindowMax(Tvals, kTMax), |Tvals|;
    var sMax := SearchLeft(Tvals, kTMax);
    if hi >= 2 {
      if hi == sMax + 1 {
        assert Tvals[sMax - 1] < kTMax;
      } else {
        assert sMax >= n - 2;
        assert Tvals[n - 3] <= Tvals[sMax - 1] < kTMax;
      }
    }
    WindowIndexed(Tvals, kTMin, kTMax);
  }

  /** For a range `[kT_min, kT_max]` inside the table and below its second-to-last node,
      the window has at least two nodes and spans the whole range, so an interpolant
      can be built over it and every temperature of the range can be queried. */
  lemma WindowCovers(Tvals: seq<real>, kTMin: real, kTMax: real)
    requires StrictlyIncreasing(Tvals) && |Tvals| >= 2
    requires Tvals[0] <= kTMin <= kTMax <= Tvals[|Tvals| - 2] && Tvals[0] < kTMax
    ensures var w := Window(Tvals, kTMin, kTMax);
            && |w| >= 2 && StrictlyIncreasing(w)
            && w[0] <= kTMin && kTMax <= w[|w| - 1]
  {
    var lo, hi := WindowMin(Tvals, kTMin), WindowMax(Tvals, kTMax);
    CoveringBounds(Tvals, kTMin, kTMax);
    var w := Window(Tvals, kTMin, kTMax);
    assert w == Tvals[lo..hi];
    SubrangeIncreasing(Tvals, lo, hi);
    assert w[0] == Tvals[lo] && w[|w| - 1] == Tvals[hi - 1];
  }

  /** The window bounds of a range inside the table and below its second-to-last node
      are at least two apart and enclose the range. */
  lemma CoveringBounds(Tvals: seq<real>, kTMin: real, kTMax: real)
    requires StrictlyIncreasing(Tvals) && |Tvals| >= 2
    requires Tvals[0] <= kTMin <= kTMax <= Tvals[|Tvals| - 2] && Tvals[0] < kTMax
    ensures var lo, hi := WindowMin(Tvals, kTMin), WindowMax(Tvals, kTMax);
            && lo + 2 <= hi <= |Tvals| - 1
            && Tvals[lo] <= kTMin && kTMax <= Tvals[hi - 1]
  {
    var n, sMax := |Tvals|, SearchLeft(Tvals, kTMax);
    SearchLeftMonotone(Tvals, kTMin, kTMax);
    assert 1 <= sMax <= n - 2;
  }

  /** A temperature above the second-to-last table node is never covered by a window,
      whatever the range asked for: querying it after any `prepare_spectrum` raises. */
  lemma WindowTopGap(Tvals: seq<real>, kTMin: real, kTMax: real, kT: real)
    requires StrictlyIncreasing(Tvals) && |Tvals| >= 2 && Tvals[|Tvals| - 2] < kT
    ensures !Covers(Window(Tvals, kTMin, kTMax), kT)
  {
    var w := Window(Tvals, kTMin, kTMax);
    var lo, hi, n := WindowMin(Tvals, kTMin), WindowMax(Tvals, kTMax), |Tvals|;
    if |w| >= 1 {
      assert 0 <= lo < hi <= n - 1;
      assert w == Tvals[lo..hi];
      assert w[|w| - 1] == Tvals[hi - 1];
      assert Tvals[hi - 1] <= Tvals[n - 2];
    }
  }

  /** The thermal model and its prepared window. Before `prepare_spectrum` the
      interpolants are absent (Python: the attributes do not exist yet). */
  class TableApecModel {
    const agen: ApecGenerator
    const ebins: seq<real>
    const de: seq<real>
    var Tvals: seq<real>
    var nT: nat
    var dTvals: seq<real>
    var cosmicSpec: Matrix
    var metalSpec: Matrix
    var varSpec: Option<seq<Matrix>>
    var cf: Option<Interp1d>
    var mf: Option<Interp1d>
    var vf: Option<Interp1dStack>

    ghost predicate Valid()
      reads this
    {
      && StrictlyIncreasing(agen.Tvals)
      && StrictlyIncreasing(Tvals)
      && (cf.Some? ==> cf.value.Valid())
      && (mf.Some? ==> mf.value.Valid())
      && (vf.Some? ==> vf.value.Valid())
    }

    /** `__init__`: keeps the generator's energy bins and their widths. */
    constructor (agen: ApecGenerator)
      requires StrictlyIncreasing(agen.Tvals)
      ensures Valid() && this.agen == agen
      ensures ebins == agen.ebins && de == Diff(agen.ebins)
      ensures cf.None? && mf.None? && vf.None? && varSpec.None?
    {
      this.agen := agen;
      ebins := agen.ebins;
      de := Diff(agen.ebins);
      Tvals, nT, dTvals := [], 0, [];
      cosmicSpec, metalSpec, varSpec := [], [], None;
      cf, mf, vf := None, None, None;
    }

    /** `prepare_spectrum`: replaces the window and rebuilds the interpolants in the
        source's order (continuum, metals, variable elements). An interpolant that
        cannot be built raises; the window fields are already replaced by then, and the
        interpolants not yet rebuilt keep their previous values. */
    method PrepareSpectrum(zobs: real, kTMin: real, kTMax: real) returns (err: Option<Error>)
      requires Valid()
      modifies this
      ensures Valid()
      ensures Tvals == Window(agen.Tvals, kTMin, kTMax) && nT == |Tvals| && dTvals == Diff(Tvals)
      ensures var t := agen.Table(WindowIndices(agen.Tvals, kTMin, kTMax), zobs);
              cosmicSpec == t.cosmic && metalSpec == t.metal && varSpec == t.variable
      ensures var cOk := MakeInterp1d(Tvals, cosmicSpec).Ok?;
              var mOk := MakeInterp1d(Tvals, metalSpec).Ok?;
              var vOk := varSpec.None? || MakeInterp1dStack(Tvals, varSpec.value).Ok?;
              && (err.None? <==> cOk && mOk && vOk)
              && cf == (if cOk then Some(Interp1d(Tvals, cosmicSpec)) else old(cf))
              && mf == (if cOk && mOk then Some(Interp1d(Tvals, metalSpec)) else old(mf))
              && vf == (if !(cOk && mOk && vOk) then old(vf)
                        else if varSpec.Some? then Some(Interp1dStack(Tvals, varSpec.value))
                        else None)
    {
      SetWindow(zobs, kTMin, kTMax);
      var w, table := Tvals, Components(cosmicSpec, metalSpec, varSpec);
      var c := MakeInterp1d(w, table.cosmic);
      if c.Err? {
        return Some(c.error);
      }
      var m := MakeInterp1d(w, table.metal);
      if m.Err? {
        cf := Some(c.value);
        return Some(m.error);
      }
      if table.variable.None? {
        cf, mf, vf := Some(c.value), Some(m.value), None;
        return None;
      }
      var v := MakeInterp1dStack(w, table.variable.value);
      if v.Err? {
        cf, mf := Some(c.value), Some(m.value);
        return Some(v.error);
      }
      cf, mf, vf := Some(c.value), Some(m.value), Some(v.value);
      err := None;
    }

    /** The first half of `prepare_spectrum`: the temperature window around
        `[kTMin, kTMax]`, its widths, and the tables read for it. */
    method SetWindow(zobs: real, kTMin: real, kTMax: real)
      requires StrictlyIncreasing(agen.Tvals)
      modifies this`Tvals, this`nT, this`dTvals, this`cosmicSpec, this`metalSpec, this`varSpec
      ensures Tvals == Window(agen.Tvals, kTMin, kTMax) && nT == |Tvals| && dTvals == Diff(Tvals)
      ensures StrictlyIncreasing(Tvals)
      ensures var t := agen.Table(WindowIndices(agen.Tvals, kTMin, kTMax), zobs);
              cosmicSpec == t.cosmic && metalSpec == t.metal && varSpec == t.variable
    {
      var lo := WindowMin(agen.Tvals, kTMin);
      var hi := WindowMax(agen.Tvals, kTMax);
      var table := agen.Table(IndexRange(lo, hi), zobs);
      var w := PySlice(agen.Tvals, lo, hi);
      WindowIndexed(agen.Tvals, kTMin, kTMax);
      Tvals, nT, dTvals := w, |w|, Diff(w);
      cosmicSpec, metalSpec, varSpec := table.cosmic, table.metal, table.variable;
    }

    /** The state `prepare_spectrum` leaves on a model that had no interpolants yet: the
        window around `[kTMin, kTMax]` with its widths and the table rows fetched for it,
        and each interpolant the call reached built over that window and those rows; the
        interpolants not reached are still absent. */
    ghost predicate PreparedFor(zobs: real, kTMin: real, kTMax: real)
      reads this
      requires StrictlyIncreasing(Tvals)
    {
      && Tvals == Window(agen.Tvals, kTMin, kTMax) && nT == |Tvals| && dTvals == Diff(Tvals)
      && (var t := agen.Table(WindowIndices(agen.Tvals, kTMin, kTMax), zobs);
          cosmicSpec == t.cosmic && metalSpec == t.metal && varSpec == t.variable)
      && (var cOk := MakeInterp1d(Tvals, cosmicSpec).Ok?;
          var mOk := MakeInterp1d(Tvals, metalSpec).Ok?;
          var vOk := varSpec.None? || MakeInterp1dStack(Tvals, varSpec.value).Ok?;
          && cf == (if cOk then Some(Interp1d(Tvals, cosmicSpec)) else None)
          && mf == (if cOk && mOk then Some(Interp1d(Tvals, metalSpec)) else None)
          && vf == (if cOk && mOk && vOk && varSpec.Some? then Some(Interp1dStack(Tvals, varSpec.value))
                    else None))
    }

    /** Every row of every built interpolant has `width` entries. */
    ghost predicate InterpolantWidth(width: nat)
      reads this
    {
      && (cf.Some? ==> RowsOfWidth(cf.value.ys, width))
      && (mf.Some? ==> RowsOfWidth(mf.value.ys, width))
      && (vf.Some? ==> forall e :: 0 <= e < |vf.value.ys| ==> RowsOfWidth(vf.value.ys[e], width))
    }

    /** Every query of `kT` is on the nodes of every interpolant `get_spectrum` calls. */
    ghost predicate Answers(kT: seq<real>)
      reads this
    {
      && cf.Some? && mf.Some?
      && (forall i :: 0 <= i < |kT| ==> Covers(cf.value.xs, kT[i]) && Covers(mf.value.xs, kT[i]))
      && (varSpec.Some? ==> vf.Some? && forall i :: 0 <= i < |kT| ==> Covers(vf.value.xs, kT[i]))
    }

    /** `get_spectrum`: one interpolated row per queried temperature for each component.
        It fails when the window was never prepared, and when any temperature lies off
        the window's nodes. */
    function GetSpectrum(kT: seq<real>): (r: Result<Components>)
      reads this
      requires Valid()
      ensures r.Ok? <==> Answers(kT)
      ensures r.Ok? ==> && |r.value.cosmic| == |kT| && |r.value.metal| == |kT|
                        && (r.value.variable.Some? <==> varSpec.Some?)
      ensures r.Ok? ==> forall i :: 0 <= i < |kT| ==>
                r.value.cosmic[i] == cf.value.At(kT[i]) && r.value.metal[i] == mf.value.At(kT[i])
      ensures r.Ok? && varSpec.Some? ==>
                && |r.value.variable.value| == |vf.value.ys|
                && forall e, i :: 0 <= e < |vf.value.ys| && 0 <= i < |kT| ==>
                     |r.value.variable.value[e]| == |kT| &&
                     r.value.variable.value[e][i] == vf.value.Element(e).At(kT[i])
    {
      if cf.None? then Err(MissingAttribute("cf"))
      else match cf.value.Call(kT)
        case Err(e) => Err(e)
        case Ok(c) =>
          if mf.None? then Err(MissingAttribute("mf"))
          else match mf.value.Call(kT)
            case Err(e) => Err(e)
            case Ok(m) =>
              if varSpec.None? then Ok(Components(c, m, None))
              else if vf.None? then Err(NotCallable)
              else match vf.value.Call(kT)
                case Err(e) => Err(e)
                case Ok(v) => Ok(Components(c, m, Some(v)))
    }
  }

  /** Queries that land on nodes of an interpolant return those nodes' rows. */
  lemma NodeQueries(f: Interp1d, kT: seq<real>, rows: Matrix)
    requires f.Valid() && |rows| == |kT|
    requires forall i :: 0 <= i < |kT| ==> rows[i] == f.At(kT[i])
    ensures forall i, j :: 0 <= i < |kT| && 0 <= j < |f.xs| && kT[i] == f.xs[j] ==> rows[i] == f.ys[j]
  {
    forall i, j | 0 <= i < |kT| && 0 <= j < |f.xs| && kT[i] == f.xs[j] ensures rows[i] == f.ys[j] {
      AtNode(f, j);
    }
  }

  /** The interpolants a preparation builds are as wide as the table rows fetched for
      the window. */
  lemma PreparedWidth(m: TableApecModel, zobs: real, kTMin: real, kTMax: real, width: nat)
    requires StrictlyIncreasing(m.Tvals) && m.PreparedFor(zobs, kTMin, kTMax)
    requires TableWidth(m.agen.Table(WindowIndices(m.agen.Tvals, kTMin, kTMax), zobs), width)
    ensures m.InterpolantWidth(width)
  {
  }

  /** The table rows a window selects have one row per window node. */
  lemma WindowTableShaped(agen: ApecGenerator, kTMin: real, kTMax: real, zobs: real)
    requires agen.Valid()
    ensures TableShaped(agen.Table(WindowIndices(agen.Tvals, kTMin, kTMax), zobs), |Window(agen.Tvals, kTMin, kTMax)|)
  {
    WindowIndexed(agen.Tvals, kTMin, kTMax);
    agen.TableAt(WindowIndices(agen.Tvals, kTMin, kTMax), zobs);
  }

  /** When the window's tables are shaped for the window, `prepare_spectrum` builds every
      interpolant on it. */
  lemma PreparedInterpolants(m: TableApecModel)
    requires StrictlyIncreasing(m.Tvals) && |m.Tvals| >= 2
    requires TableShaped(Components(m.cosmicSpec, m.metalSpec, m.varSpec), |m.Tvals|)
    requires var cOk := MakeInterp1d(m.Tvals, m.cosmicSpec).Ok?;
             var mOk := MakeInterp1d(m.Tvals, m.metalSpec).Ok?;
             var vOk := m.varSpec.None? || MakeInterp1dStack(m.Tvals, m.varSpec.value).Ok?;
             && (cOk ==> m.cf == Some(Interp1d(m.Tvals, m.cosmicSpec)))
             && (cOk && mOk ==> m.mf == Some(Interp1d(m.Tvals, m.metalSpec)))
             && (cOk && mOk && vOk && m.varSpec.Some? ==> m.vf == Some(Interp1dStack(m.Tvals, m.varSpec.value)))
    ensures |m.cosmicSpec| == |m.Tvals| && |m.metalSpec| == |m.Tvals|
    ensures m.cf == Some(Interp1d(m.Tvals, m.cosmicSpec)) && m.mf == Some(Interp1d(m.Tvals, m.metalSpec))
    ensures m.varSpec.Some? ==> m.vf == Some(Interp1dStack(m.Tvals, m.varSpec.value))
  {
    assert MakeInterp1d(m.Tvals, m.cosmicSpec).Ok? && MakeInterp1d(m.Tvals, m.metalSpec).Ok?;
    assert m.varSpec.None? || MakeInterp1dStack(m.Tvals, m.varSpec.value).Ok?;
  }

  /** Once the interpolants are built on a window that covers `[kTMin, kTMax]`, every
      query from that range is answered. */
  lemma WindowAnswers(m: TableApecModel, kTMin: real, kTMax: real, kT: seq<real>)
    requires |m.Tvals| >= 2 && m.Tvals[0] <= kTMin && kTMax <= m.Tvals[|m.Tvals| - 1]
    requires forall i :: 0 <= i < |kT| ==> kTMin <= kT[i] <= kTMax
    requires m.cf == Some(Interp1d(m.Tvals, m.cosmicSpec)) && m.mf == Some(Interp1d(m.Tvals, m.metalSpec))
    requires m.varSpec.Some? ==> m.vf == Some(Interp1dStack(m.Tvals, m.varSpec.value))
    ensures m.Answers(kT)
  {
    assert forall i :: 0 <= i < |kT| ==> Covers(m.Tvals, kT[i]);
  }

  /** The prepared window reaches from below `kTMin` to above `kTMax`. */
  lemma WindowBounds(m: TableApecModel, kTMin: real, kTMax: real)
    requires StrictlyIncreasing(m.agen.Tvals) && |m.agen.Tvals| >= 2
    requires m.agen.Tvals[0] <= kTMin <= kTMax <= m.agen.Tvals[|m.agen.Tvals| - 2]
    requires m.agen.Tvals[0] < kTMax && m.Tvals == Window(m.agen.Tvals, kTMin, kTMax)
    ensures |m.Tvals| >= 2 && m.Tvals[0] <= kTMin && kTMax <= m.Tvals[|m.Tvals| - 1]
  {
    WindowCovers(m.agen.Tvals, kTMin, kTMax);
  }

  /** A snapshot's use of the model: preparing a range that lies inside the table (below
      its second-to-last node) and then querying temperatures from that range succeeds,
      and a query at a window node returns that node's table row unchanged. */
  method PrepareThenQuery(m: TableApecModel, zobs: real, kTMin: real, kTMax: real, kT: seq<real>)
    returns (r: Result<Components>)
    requires m.Valid() && m.agen.Valid() && |m.agen.Tvals| >= 2
    requires m.agen.Tvals[0] <= kTMin <= kTMax <= m.agen.Tvals[|m.agen.Tvals| - 2]
    requires m.agen.Tvals[0] < kTMax
    requires forall i :: 0 <= i < |kT| ==> kTMin <= kT[i] <= kTMax
    modifies m
    ensures m.Valid() && r.Ok? && r == m.GetSpectrum(kT)
    ensures |m.cosmicSpec| == |m.Tvals| && |m.metalSpec| == |m.Tvals|
    ensures forall i, j :: 0 <= i < |kT| && 0 <= j < |m.Tvals| && kT[i] == m.Tvals[j] ==>
              r.value.cosmic[i] == m.cosmicSpec[j] && r.value.metal[i] == m.metalSpec[j]
  {
    var err := m.PrepareSpectrum(zobs, kTMin, kTMax);
    WindowBounds(m, kTMin, kTMax);
    WindowTableShaped(m.agen, kTMin, kTMax, zobs);
    PreparedInterpolants(m);
    WindowAnswers(m, kTMin, kTMax, kT);
    r := m.GetSpectrum(kT);
    NodeQueries(m.cf.value, kT, r.value.cosmic);
    NodeQueries(m.mf.value, kT, r.value.metal);
  }
}
