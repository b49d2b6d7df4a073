/** Foreground absorption: a tabulated cross-section, interpolated in energy, turns into
    a survival probability `exp(-sigma(E) * N_H)`, and each photon survives when its
    uniform random draw falls below that probability. */
module Absorption {
  import opened Common
  import opened Search
  import opened Interp

  /** The exponential `get_absorb` applies, abstracted as a real function: one at zero,
      positive and increasing. */
  datatype Exponential = Exponential(exp: real -> real) {
    function Exp(x: real): real { exp(x) }

    ghost predicate Valid() {
      && Exp(0.0) == 1.0
      && (forall x :: Exp(x) > 0.0)
      && (forall x, y :: x <= y ==> Exp(x) <= Exp(y))
    }
  }

  /** A tabulated absorption model: the column density in cm^-2, the energies of the
      table in keV and the cross-sections in cm^2 at those energies. */
  datatype AbsorptionModel = AbsorptionModel(nH: real, emid: seq<real>, sigma: seq<real>)

  /** `AbsorptionModel.__init__`: the column density is given in units of 10^22 cm^-2
      and kept in cm^-2; the energies and cross-sections are kept as given. */
  function MakeAbsorptionModel(nH: real, energy: seq<real>, crossSection: seq<real>): (m: AbsorptionModel)
    ensures m.nH / 1.0e22 == nH
    ensures nH >= 0.0 <==> m.nH >= 0.0
    ensures m.emid == energy && m.sigma == crossSection
  {
    AbsorptionModel(nH * 1.0e22, energy, crossSection)
  }

  /** `np.interp(x, xp, fp, left=0.0, right=0.0)` on a table numpy accepts: zero below the
      first node and above the last, the last value at the last node, and otherwise the
      line through the nodes `j` and `j + 1` that enclose `x` (`xp[j] <= x < xp[j + 1]`,
      found by a right-sided search). */
  function ZeroFillInterp(x: real, xp: seq<real>, fp: seq<real>): (r: real)
    requires 0 < |xp| == |fp|
    ensures x < xp[0] || x > xp[|xp| - 1] ==> r == 0.0
  {
    var n := |xp|;
    if x > xp[n - 1] || x < xp[0] then 0.0
    else if x == xp[n - 1] then fp[n - 1]
    else
      var j := SearchRight(xp, x) - 1;
      (fp[j + 1] - fp[j]) / (xp[j + 1] - xp[j]) * (x - xp[j]) + fp[j]
  }

  /** The enclosing interval `ZeroFillInterp` picks inside the table. */
  lemma Enclosing(x: real, xp: seq<real>)
    requires 0 < |xp| && xp[0] <= x < xp[|xp| - 1]
    ensures var j := SearchRight(xp, x) - 1;
            0 <= j < |xp| - 1 && xp[j] <= x < xp[j + 1]
  {
  }

  /** At a node of an increasing table the interpolation gives the tabulated value. */
  lemma InterpAtNode(xp: seq<real>, fp: seq<real>, k: nat)
    requires StrictlyIncreasing(xp) && 0 < |xp| == |fp| && k < |xp|
    ensures ZeroFillInterp(xp[k], xp, fp) == fp[k]
  {
    var n := |xp|;
    if k < n - 1 {
      Enclosing(xp[k], xp);
    }
  }

  /** Outside the table the cross-section is zero. */
  lemma InterpOutside(x: real, xp: seq<real>, fp: seq<real>)
    requires 0 < |xp| == |fp| && (x < xp[0] || x > xp[|xp| - 1])
    ensures ZeroFillInterp(x, xp, fp) == 0.0
  {
  }

  /** Interpolated values stay within any bounds the tabulated values keep, as long as
      those bounds admit the zero fill outside the table. */
  lemma InterpBounded(x: real, xp: seq<real>, fp: seq<real>, lo: real, hi: real)
    requires 0 < |xp| == |fp| && lo <= 0.0 <= hi
    requires forall k :: 0 <= k < |fp| ==> lo <= fp[k] <= hi
    ensures lo <= ZeroFillInterp(x, xp, fp) <= hi
  {
    var n := |xp|;
    if xp[0] <= x < xp[n - 1] {
      Enclosing(x, xp);
      var j := SearchRight(xp, x) - 1;
      LineBounded(fp[j], fp[j + 1], xp[j + 1] - xp[j], x - xp[j], lo, hi);
    }
  }

  /** A point on the segment between two values lies between any bounds of both. */
  lemma LineBounded(a: real, b: real, d: real, e: real, lo: real, hi: real)
    requires 0.0 <= e <= d && d > 0.0 && lo <= a <= hi && lo <= b <= hi
    ensures lo <= (b - a) / d * e + a <= hi
  {
    UnitFraction(e, d);
    SlopeForm(a, b, d, e);
    var t := e / d;
    ScaleMonotone(1.0 - t, lo, a);
    ScaleMonotone(t, lo, b);
    ScaleMonotone(1.0 - t, a, hi);
    ScaleMonotone(t, b, hi);
    assert (1.0 - t) * lo + t * lo == lo && (1.0 - t) * hi + t * hi == hi;
  }

  lemma ScaleMonotone(c: real, x: real, y: real)
    requires c >= 0.0 && x <= y
    ensures c * x <= c * y
  {
    assert c * y - c * x == c * (y - x);
  }

  /** Every tabulated cross-section is non-negative. */
  predicate NonNegative(fp: seq<real>) {
    forall k :: 0 <= k < |fp| ==> fp[k] >= 0.0
  }

  /** The largest tabulated value, with zero as a floor. */
  function TableMax(fp: seq<real>): (mx: real)
    ensures mx >= 0.0 && forall k :: 0 <= k < |fp| ==> fp[k] <= mx
  {
    if |fp| == 0 then 0.0
    else
      var rest := TableMax(fp[1..]);
      assert forall k :: 1 <= k < |fp| ==> fp[k] == fp[1..][k - 1];
      if fp[0] > rest then fp[0] else rest
  }

  /** The optical depth of a column density `nH` of an absorber of cross-section `s`. */
  function OpticalDepth(s: real, nH: real): (d: real)
    ensures s >= 0.0 && nH >= 0.0 ==> d >= 0.0
    ensures s == 0.0 || nH == 0.0 ==> d == 0.0
  {
    s * nH
  }

  /** For an absorber with a non-negative cross-section, a thicker column is at least as
      deep, and a column of non-negative density has a non-negative depth. */
  lemma DepthMonotone(s: real, nH: real, thick: real)
    requires s >= 0.0 && nH <= thick
    ensures OpticalDepth(s, nH) <= OpticalDepth(s, thick)
    ensures nH >= 0.0 ==> OpticalDepth(s, nH) >= 0.0
  {
  }

  /** The survival probability of one photon of energy `e` under the model. */
  function Survival(m: AbsorptionModel, ex: Exponential, e: real): (p: real)
    requires 0 < |m.emid| == |m.sigma|
    ensures ex.Valid() ==> p > 0.0
  {
    ex.Exp(-OpticalDepth(ZeroFillInterp(e, m.emid, m.sigma), m.nH))
  }

  /** `get_absorb`: the survival probability at each energy. `np.interp` refuses an
      empty table before looking at the energies, then a table whose two columns differ
      in length. */
  function GetAbsorb(m: AbsorptionModel, ex: Exponential, e: seq<real>): (r: Result<seq<real>>)
    ensures |m.emid| == 0 ==> r == Err(EmptySamplePoints)
    ensures 0 < |m.emid| != |m.sigma| ==> r == Err(LengthMismatch)
    ensures r.Ok? <==> 0 < |m.emid| == |m.sigma|
    ensures r.Ok? ==> |r.value| == |e| && forall i :: 0 <= i < |e| ==> r.value[i] == Survival(m, ex, e[i])
  {
    if |m.emid| == 0 then Err(EmptySamplePoints)
    else if |m.sigma| != |m.emid| then Err(LengthMismatch)
    else Ok(seq(|e|, i requires 0 <= i < |e| => Survival(m, ex, e[i])))
  }

  /** With a non-negative column density and non-negative cross-sections every
      survival probability lies in `(0, 1]`. */
  lemma SurvivalIsProbability(m: AbsorptionModel, ex: Exponential, e: real)
    requires ex.Valid() && 0 < |m.emid| == |m.sigma|
    requires m.nH >= 0.0 && NonNegative(m.sigma)
    ensures 0.0 < Survival(m, ex, e) <= 1.0
  {
    var s := ZeroFillInterp(e, m.emid, m.sigma);
    InterpBounded(e, m.emid, m.sigma, 0.0, TableMax(m.sigma));
    DepthMonotone(s, m.nH, m.nH);
  }

  /** Photons outside the tabulated energies are not absorbed at all. */
  lemma SurvivalOutsideTable(m: AbsorptionModel, ex: Exponential, e: real)
    requires ex.Valid() && 0 < |m.emid| == |m.sigma|
    requires e < m.emid[0] || e > m.emid[|m.emid| - 1]
    ensures Survival(m, ex, e) == 1.0
  {
    InterpOutside(e, m.emid, m.sigma);
  }

  /** At a tabulated energy the survival probability is `exp(-sigma * N_H)` with that
      energy's own cross-section. */
  lemma SurvivalAtNode(m: AbsorptionModel, ex: Exponential, k: nat)
    requires StrictlyIncreasing(m.emid) && 0 < |m.emid| == |m.sigma| && k < |m.emid|
    ensures Survival(m, ex, m.emid[k]) == ex.Exp(-OpticalDepth(m.sigma[k], m.nH))
  {
    InterpAtNode(m.emid, m.sigma, k);
  }

  /** A thicker column of the same absorber lets no more of any energy through. */
  lemma ThickerColumnAbsorbsMore(m: AbsorptionModel, thick: AbsorptionModel, ex: Exponential, e: real)
    requires ex.Valid() && 0 < |m.emid| == |m.sigma| && NonNegative(m.sigma)
    requires thick.emid == m.emid && thick.sigma == m.sigma && m.nH <= thick.nH
    ensures Survival(thick, ex, e) <= Survival(m, ex, e)
  {
    var s := ZeroFillInterp(e, m.emid, m.sigma);
    InterpBounded(e, m.emid, m.sigma, 0.0, TableMax(m.sigma));
    DepthMonotone(s, m.nH, thick.nH);
  }

  /** `absorb_photons`: which photons survive. The uniform draws the random state would
      make, one per photon, are the input `randvec`. No photons give no decisions, before
      the table is consulted; otherwise photon `i` survives exactly when its draw is below
      its survival probability. */
  function AbsorbPhotons(m: AbsorptionModel, ex: Exponential, eobs: seq<real>, randvec: seq<real>)
    : (r: Result<seq<bool>>)
    requires |randvec| == |eobs|
    ensures |eobs| == 0 ==> r == Ok([])
    ensures |eobs| > 0 ==> (r.Ok? <==> 0 < |m.emid| == |m.sigma|)
    ensures |eobs| > 0 && r.Err? ==> r.error == GetAbsorb(m, ex, eobs).error
    ensures r.Ok? && |eobs| > 0 ==>
              |r.value| == |eobs| &&
              forall i :: 0 <= i < |eobs| ==> (r.value[i] <==> randvec[i] < Survival(m, ex, eobs[i]))
  {
    if |eobs| == 0 then Ok([])
    else
      match GetAbsorb(m, ex, eobs)
      case Err(e) => Err(e)
      case Ok(absorb) => Ok(seq(|eobs|, i requires 0 <= i < |eobs| => randvec[i] < absorb[i]))
  }

  /** Every photon outside the tabulated energies survives any draw from `[0, 1)`. */
  lemma OutsideTableSurvives(m: AbsorptionModel, ex: Exponential, eobs: seq<real>, randvec: seq<real>, i: nat)
    requires ex.Valid() && |randvec| == |eobs| && 0 < |m.emid| == |m.sigma|
    requires i < |eobs| && 0.0 <= randvec[i] < 1.0
    requires eobs[i] < m.emid[0] || eobs[i] > m.emid[|m.emid| - 1]
    ensures AbsorbPhotons(m, ex, eobs, randvec).Ok?
    ensures AbsorbPhotons(m, ex, eobs, randvec).value[i]
  {
    SurvivalOutsideTable(m, ex, eobs[i]);
  }

  /** With the same draws, every photon that survives a thicker column of the same
      absorber also survives a thinner one. */
  lemma SurvivorsOfThickerColumn(m: AbsorptionModel, thick: AbsorptionModel, ex: Exponential,
                                 eobs: seq<real>, randvec: seq<real>, i: nat)
    requires ex.Valid() && |randvec| == |eobs| && 0 < |m.emid| == |m.sigma| && NonNegative(m.sigma)
    requires thick.emid == m.emid && thick.sigma == m.sigma && m.nH <= thick.nH
    requires i < |eobs| && AbsorbPhotons(thick, ex, eobs, randvec).value[i]
    ensures AbsorbPhotons(m, ex, eobs, randvec).value[i]
  {
    ThickerColumnAbsorbsMore(m, thick, ex, eobs[i]);
  }
}
