/** The numpy primitives the spectral models use for table lookup: `searchsorted` on
    both sides, `diff`, and Python's slice `a[lo:hi]`. */
module Search {

  /** A tabulated axis: strictly increasing, as temperature and density axes are. */
  predicate StrictlyIncreasing(xs: seq<real>) {
    forall i, j :: 0 <= i < j < |xs| ==> xs[i] < xs[j]
  }

  /** `np.searchsorted(xs, x)` (side 'left'): the first index whose node is `>= x`,
      or `|xs|` when there is none. */
  function SearchLeft(xs: seq<real>, x: real): (k: nat)
    ensures k <= |xs|
    ensures forall i :: 0 <= i < k ==> xs[i] < x
    ensures k < |xs| ==> x <= xs[k]
  {
    if |xs| == 0 || x <= xs[0] then 0 else 1 + SearchLeft(xs[1..], x)
  }

  /** `np.searchsorted(xs, x, side='right')`: the first index whose node is `> x`,
      or `|xs|` when there is none. */
  function SearchRight(xs: seq<real>, x: real): (k: nat)
    ensures k <= |xs|
    ensures forall i :: 0 <= i < k ==> xs[i] <= x
    ensures k < |xs| ==> x < xs[k]
  {
    if |xs| == 0 || x < xs[0] then 0 else 1 + SearchRight(xs[1..], x)
  }

  /** On a strictly increasing axis the left search of a node finds that node. */
  lemma SearchLeftAtNode(xs: seq<real>, j: nat)
    requires StrictlyIncreasing(xs) && j < |xs|
    ensures SearchLeft(xs, xs[j]) == j
  {
  }

  /** On a strictly increasing axis the left search is monotone in the query. */
  lemma SearchLeftMonotone(xs: seq<real>, x: real, y: real)
    requires StrictlyIncreasing(xs) && x <= y
    ensures SearchLeft(xs, x) <= SearchLeft(xs, y)
  {
  }

  /** `np.diff(xs)`: the widths of the intervals between consecutive nodes. */
  function Diff(xs: seq<real>): (d: seq<real>)
    ensures |d| == if |xs| == 0 then 0 else |xs| - 1
  {
    if |xs| <= 1 then [] else seq(|xs| - 1, i requires 0 <= i < |xs| - 1 => xs[i + 1] - xs[i])
  }

  /** An axis is strictly increasing exactly when every interval width is positive. */
  lemma {:induction false} DiffPositive(xs: seq<real>)
    ensures StrictlyIncreasing(xs) <==> forall i :: 0 <= i < |Diff(xs)| ==> Diff(xs)[i] > 0.0
  {
    if forall i :: 0 <= i < |Diff(xs)| ==> Diff(xs)[i] > 0.0 {
      if |xs| > 1 {
        var d := Diff(xs);
        assert forall i :: 0 <= i < |xs| - 1 ==> xs[i] < xs[i + 1] by {
          forall i | 0 <= i < |xs| - 1 ensures xs[i] < xs[i + 1] {
            assert d[i] == xs[i + 1] - xs[i];
          }
        }
        forall i, j | 0 <= i < j < |xs| ensures xs[i] < xs[j] {
          ChainIncreasing(xs, i, j);
        }
      }
    }
  }

  lemma {:induction false} ChainIncreasing(xs: seq<real>, i: nat, j: nat)
    requires forall k :: 0 <= k < |xs| - 1 ==> xs[k] < xs[k + 1]
    requires i < j < |xs|
    ensures xs[i] < xs[j]
    decreases j - i
  {
    if i + 1 < j {
      ChainIncreasing(xs, i + 1, j);
    }
  }

  /** Python's normalisation of one slice bound against a sequence of length `n`:
      a negative bound counts from the end, and the result is clamped to `[0, n]`. */
  function SliceBound(i: int, n: nat): (b: nat)
    ensures b <= n
    ensures 0 <= i <= n ==> b == i
  {
    if i < 0 then (if i + n < 0 then 0 else i + n) else if i > n then n else i
  }

  /** Python's `s[lo:hi]`. */
  function PySlice<T>(s: seq<T>, lo: int, hi: int): (r: seq<T>)
    ensures 0 <= lo <= hi <= |s| ==> r == s[lo..hi]
    ensures 0 <= hi <= lo ==> r == []
  {
    var a, b := SliceBound(lo, |s|), SliceBound(hi, |s|);
    if a < b then s[a..b] else []
  }

  /** A contiguous piece of a strictly increasing axis is strictly increasing. */
  lemma SubrangeIncreasing(xs: seq<real>, lo: nat, hi: nat)
    requires StrictlyIncreasing(xs) && lo <= hi <= |xs|
    ensures StrictlyIncreasing(xs[lo..hi])
  {
    forall i, j | 0 <= i < j < hi - lo ensures xs[lo..hi][i] < xs[lo..hi][j] {
      assert xs[lo..hi][i] == xs[lo + i] && xs[lo..hi][j] == xs[lo + j];
    }
  }
}
