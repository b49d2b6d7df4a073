/** Boolean masks as numpy uses them: `xs[mask]` keeps the selected entries in order, and
    `dest[mask] = vals` writes `vals` back into the selected positions in order. */
module Masks {
  import opened Common

  /** `mask.sum()`: how many entries are selected. */
  function Count(mask: seq<bool>): (n: nat)
    ensures n <= |mask|
  {
    if |mask| == 0 then 0
    else Count(mask[..|mask| - 1]) + (if mask[|mask| - 1] then 1 else 0)
  }

  /** The position, among the selected entries, of entry `i`: how many are selected before it. */
  function Rank(mask: seq<bool>, i: nat): (r: nat)
    requires i <= |mask|
    ensures i < |mask| && mask[i] ==> r < Count(mask)
  {
    CountPrefix(mask, i);
    Count(mask[..i])
  }

  /** The selected entries of a prefix, plus entry `i` itself, are among those of the whole. */
  lemma {:induction false} CountPrefix(mask: seq<bool>, i: nat)
    requires i <= |mask|
    ensures Count(mask[..i]) + (if i < |mask| && mask[i] then 1 else 0) <= Count(mask)
    decreases |mask|
  {
    if i < |mask| {
      var n := |mask| - 1;
      if i == n {
        assert mask[..n] == mask[..i];
      } else {
        assert mask[..n][..i] == mask[..i];
        CountPrefix(mask[..n], i);
      }
    } else {
      assert mask[..i] == mask;
    }
  }

  /** `~mask`. */
  function Not(mask: seq<bool>): (r: seq<bool>)
    ensures |r| == |mask| && forall i :: 0 <= i < |mask| ==> r[i] == !mask[i]
  {
    seq(|mask|, i requires 0 <= i < |mask| => !mask[i])
  }

  /** `xs[mask]`: the selected entries, in their original order. */
  function Compress<T>(mask: seq<bool>, xs: seq<T>): (r: seq<T>)
    requires |mask| == |xs|
    ensures |r| == Count(mask)
  {
    if |mask| == 0 then []
    else
      var n := |mask| - 1;
      Compress(mask[..n], xs[..n]) + (if mask[n] then [xs[n]] else [])
  }

  /** A selected entry sits in `xs[mask]` at its rank: compressing keeps the order, so
      row `Rank(mask, i)` of a result computed on `xs[mask]` belongs to point `i`. */
  lemma {:induction false} CompressAt<T>(mask: seq<bool>, xs: seq<T>, i: nat)
    requires |mask| == |xs| && i < |mask| && mask[i]
    ensures Rank(mask, i) < Count(mask)
    ensures Compress(mask, xs)[Rank(mask, i)] == xs[i]
  {
    var n := |mask| - 1;
    assert mask[..i + 1][..i] == mask[..i];
    if i < n {
      assert mask[..n][..i] == mask[..i];
      CompressAt(mask[..n], xs[..n], i);
      assert xs[..n][i] == xs[i];
    } else {
      assert mask[..n] == mask[..i];
    }
  }

  /** Every entry is selected by exactly one of `mask` and `~mask`. */
  lemma {:induction false} CountComplement(mask: seq<bool>)
    ensures Count(mask) + Count(Not(mask)) == |mask|
  {
    if |mask| > 0 {
      var n := |mask| - 1;
      assert Not(mask)[..n] == Not(mask[..n]);
      CountComplement(mask[..n]);
    }
  }

  /** Splitting by `mask` and by `~mask` loses and duplicates nothing: the two parts
      together are a permutation of the input. */
  lemma {:induction false} CompressPartition<T>(mask: seq<bool>, xs: seq<T>)
    requires |mask| == |xs|
    ensures multiset(Compress(mask, xs)) + multiset(Compress(Not(mask), xs)) == multiset(xs)
  {
    if |mask| > 0 {
      var n := |mask| - 1;
      var m, init := mask[..n], xs[..n];
      var sel, rej := Compress(m, init), Compress(Not(m), init);
      CompressLast(mask, xs);
      CompressPartition(m, init);
      SplitStep(Compress(mask, xs), Compress(Not(mask), xs), sel, rej, init, xs, xs[n], mask[n]);
    }
  }

  /** Compressing by a mask and by its negation, peeled at the last entry. */
  lemma CompressLast<T>(mask: seq<bool>, xs: seq<T>)
    requires |mask| == |xs| > 0
    ensures var n := |mask| - 1;
            && xs == xs[..n] + [xs[n]]
            && Compress(mask, xs) == (if mask[n] then Compress(mask[..n], xs[..n]) + [xs[n]] else Compress(mask[..n], xs[..n]))
            && Compress(Not(mask), xs) == (if mask[n] then Compress(Not(mask[..n]), xs[..n]) else Compress(Not(mask[..n]), xs[..n]) + [xs[n]])
  {
    var n := |mask| - 1;
    assert Not(mask)[..n] == Not(mask[..n]);
  }

  /** Appending one entry to either part of a split appends it to the whole. */
  lemma SplitStep<T>(left: seq<T>, right: seq<T>, a: seq<T>, b: seq<T>, whole: seq<T>, full: seq<T>, x: T, toLeft: bool)
    requires multiset(a) + multiset(b) == multiset(whole)
    requires full == whole + [x]
    requires left == if toLeft then a + [x] else a
    requires right == if toLeft then b else b + [x]
    ensures multiset(left) + multiset(right) == multiset(full)
  {
  }

  /** Every position of `xs[mask]` comes from a selected entry: the one of that rank. */
  lemma {:induction false} Unrank(mask: seq<bool>, k: nat) returns (i: nat)
    requires k < Count(mask)
    ensures i < |mask| && mask[i] && Rank(mask, i) == k
    decreases |mask|
  {
    var n := |mask| - 1;
    if k < Count(mask[..n]) {
      i := Unrank(mask[..n], k);
      assert mask[..n][..i] == mask[..i];
    } else {
      assert mask[n] && k == Count(mask[..n]);
      i := n;
    }
  }

  /** A mask that selects nothing is false everywhere. */
  lemma NoneSelected(mask: seq<bool>)
    requires Count(mask) == 0
    ensures forall i :: 0 <= i < |mask| ==> !mask[i]
  {
    forall i | 0 <= i < |mask| ensures !mask[i] {
      CountPrefix(mask, i);
    }
  }

  lemma CountStep(mask: seq<bool>, i: nat)
    requires i < |mask|
    ensures Count(mask[..i + 1]) == Count(mask[..i]) + (if mask[i] then 1 else 0)
  {
    assert mask[..i + 1][..i] == mask[..i];
  }

  /** `dest[mask] = vals` on one axis: the `k`-th selected row receives `vals[k]`, and the
      rows not selected keep their contents. */
  method MaskedAssign(dest: array<Spectrum>, mask: seq<bool>, vals: Matrix)
    requires dest.Length == |mask| && |vals| == Count(mask)
    modifies dest
    ensures forall i :: 0 <= i < |mask| ==>
              dest[i] == if mask[i] then vals[Rank(mask, i)] else old(dest[i])
  {
    var i, k := 0, 0;
    while i < |mask|
      invariant 0 <= i <= |mask| && k == Rank(mask, i)
      invariant forall j :: 0 <= j < i ==>
                  dest[j] == if mask[j] then vals[Rank(mask, j)] else old(dest[j])
      invariant forall j :: i <= j < |mask| ==> dest[j] == old(dest[j])
    {
      CountStep(mask, i);
      if mask[i] {
        CompressAt(mask, mask, i);
        dest[i] := vals[k];
        k := k + 1;
      }
      i := i + 1;
    }
  }

  /** `dest[:, mask] = vals` on a stack of planes: in every plane `e`, the `k`-th selected
      entry receives `vals[e][k]`, and the entries not selected keep their contents. */
  method MaskedAssignPlanes(dest: array2<Spectrum>, mask: seq<bool>, vals: seq<Matrix>)
    requires dest.Length0 == |vals| && dest.Length1 == |mask|
    requires forall e :: 0 <= e < |vals| ==> |vals[e]| == Count(mask)
    modifies dest
    ensures forall e, i :: 0 <= e < |vals| && 0 <= i < |mask| ==>
              dest[e, i] == if mask[i] then vals[e][Rank(mask, i)] else old(dest[e, i])
  {
    var e := 0;
    while e < |vals|
      invariant 0 <= e <= |vals|
      invariant forall e', i :: 0 <= e' < e && 0 <= i < |mask| ==>
                  dest[e', i] == if mask[i] then vals[e'][Rank(mask, i)] else old(dest[e', i])
      invariant forall e', i :: e <= e' < |vals| && 0 <= i < |mask| ==> dest[e', i] == old(dest[e', i])
    {
      MaskedAssignPlane(dest, e, mask, vals[e]);
      e := e + 1;
    }
  }

  /** `dest[e, mask] = row`: one plane of `MaskedAssignPlanes`; the other planes keep
      their contents. */
  method MaskedAssignPlane(dest: array2<Spectrum>, e: nat, mask: seq<bool>, row: Matrix)
    requires e < dest.Length0 && dest.Length1 == |mask| && |row| == Count(mask)
    modifies dest
    ensures forall i :: 0 <= i < |mask| ==>
              dest[e, i] == if mask[i] then row[Rank(mask, i)] else old(dest[e, i])
    ensures forall e', i :: 0 <= e' < dest.Length0 && e' != e && 0 <= i < |mask| ==>
              dest[e', i] == old(dest[e', i])
  {
    var i, k := 0, 0;
    while i < |mask|
      invariant 0 <= i <= |mask| && k == Rank(mask, i)
      invariant forall i' :: 0 <= i' < i ==>
                  dest[e, i'] == if mask[i'] then row[Rank(mask, i')] else old(dest[e, i'])
      invariant forall i' :: i <= i' < |mask| ==> dest[e, i'] == old(dest[e, i'])
      invariant forall e', i' :: 0 <= e' < dest.Length0 && e' != e && 0 <= i' < |mask| ==>
                  dest[e', i'] == old(dest[e', i'])
    {
      CountStep(mask, i);
      if mask[i] {
        CompressAt(mask, mask, i);
        dest[e, i] := row[k];
        k := k + 1;
      }
      i := i + 1;
    }
  }

  /** A row of zeros. */
  function Zeros(n: nat): (r: Spectrum)
    ensures |r| == n && forall k :: 0 <= k < n ==> r[k] == 0.0
  {
    seq(n, _ => 0.0)
  }

  /** `np.zeros((n, width))`: a fresh array of `n` zero rows. */
  method ZeroRows(n: nat, width: nat) returns (a: array<Spectrum>)
    ensures fresh(a) && a.Length == n && forall i :: 0 <= i < n ==> a[i] == Zeros(width)
  {
    a := new Spectrum[n];
    var i := 0;
    while i < n
      invariant 0 <= i <= n && forall j :: 0 <= j < i ==> a[j] == Zeros(width)
    {
      a[i] := Zeros(width);
      i := i + 1;
    }
  }

  /** `np.zeros((planes, n, width))`: a fresh stack of `planes` arrays of `n` zero rows. */
  method ZeroPlanes(planes: nat, n: nat, width: nat) returns (a: array2<Spectrum>)
    ensures fresh(a) && a.Length0 == planes && a.Length1 == n
    ensures forall e, i :: 0 <= e < planes && 0 <= i < n ==> a[e, i] == Zeros(width)
  {
    a := new Spectrum[planes, n];
    var e := 0;
    while e < planes
      invariant 0 <= e <= planes
      invariant forall e', i :: 0 <= e' < e && 0 <= i < n ==> a[e', i] == Zeros(width)
    {
      var i := 0;
      while i < n
        invariant 0 <= i <= n
        invariant forall e', i' :: 0 <= e' < e && 0 <= i' < n ==> a[e', i'] == Zeros(width)
        invariant forall i' :: 0 <= i' < i ==> a[e, i'] == Zeros(width)
      {
        a[e, i] := Zeros(width);
        i := i + 1;
      }
      e := e + 1;
    }
  }

  /** The contents of a stack of row arrays, plane by plane. */
  method Planes(a: array2<Spectrum>) returns (v: seq<Matrix>)
    ensures |v| == a.Length0
    ensures forall e :: 0 <= e < a.Length0 ==> |v[e]| == a.Length1
    ensures forall e, i :: 0 <= e < a.Length0 && 0 <= i < a.Length1 ==> v[e][i] == a[e, i]
  {
    v := [];
    var e := 0;
    while e < a.Length0
      invariant 0 <= e <= a.Length0 && |v| == e
      invariant forall e' :: 0 <= e' < e ==> |v[e']| == a.Length1
      invariant forall e', i :: 0 <= e' < e && 0 <= i < a.Length1 ==> v[e'][i] == a[e', i]
    {
      var row: Matrix := [];
      var i := 0;
      while i < a.Length1
        invariant 0 <= i <= a.Length1 && |row| == i
        invariant forall i' :: 0 <= i' < i ==> row[i'] == a[e, i']
      {
        row := row + [a[e, i]];
        i := i + 1;
      }
      v := v + [row];
      e := e + 1;
    }
  }
}
