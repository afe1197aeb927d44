/** The whole-array operations the per-sample step is built from: an
    element-wise comparison that yields a boolean mask, indexing an array by
    such a mask (which keeps the selected elements in their original order),
    and the maximum of a non-empty array. */
module ArrayOps {

  /** The grid is strictly increasing, as linear interpolation demands of its nodes. */
  predicate StrictlyIncreasing(s: seq<real>) {
    forall i, j :: 0 <= i < j < |s| ==> s[i] < s[j]
  }

  /** `xs != 0`, element by element; the comparison with zero is exact. */
  function NonZeroMask(xs: seq<real>): seq<bool> {
    seq(|xs|, i requires 0 <= i < |xs| => xs[i] != 0.0)
  }

  /** `xs <= bound`, element by element. */
  function AtMostMask(xs: seq<real>, bound: real): seq<bool> {
    seq(|xs|, i requires 0 <= i < |xs| => xs[i] <= bound)
  }

  /** `ks` lists exactly the positions below `n` at which `m` holds. */
  ghost predicate ListsSelected(m: seq<bool>, n: nat, ks: seq<nat>)
    requires n <= |m|
  {
    && (forall k :: 0 <= k < |ks| ==> ks[k] < n && m[ks[k]])
    && (forall i :: 0 <= i < n && m[i] ==> i in ks)
  }

  /** The positions below `n` that a boolean mask selects, in increasing order. */
  function KeptBelow(m: seq<bool>, n: nat): (ks: seq<nat>)
    requires n <= |m|
    ensures |ks| <= n
  {
    if n == 0 then []
    else KeptBelow(m, n - 1) + (if m[n - 1] then [n - 1] else [])
  }

  /** The positions a boolean mask selects, in increasing order. */
  function Kept(m: seq<bool>): seq<nat> {
    KeptBelow(m, |m|)
  }

  /** The elements of `xs` at the positions below `n` that `m` selects. */
  function CompressBelow<T>(xs: seq<T>, m: seq<bool>, n: nat): (r: seq<T>)
    requires |xs| == |m| && n <= |m|
    ensures |r| == |KeptBelow(m, n)|
  {
    if n == 0 then []
    else CompressBelow(xs, m, n - 1) + (if m[n - 1] then [xs[n - 1]] else [])
  }

  /** `xs[m]`: the elements of `xs` at the positions `m` selects. */
  function Compress<T>(xs: seq<T>, m: seq<bool>): seq<T>
    requires |xs| == |m|
  {
    CompressBelow(xs, m, |m|)
  }

  lemma {:induction false} KeptBelowLists(m: seq<bool>, n: nat)
    requires n <= |m|
    ensures ListsSelected(m, n, KeptBelow(m, n))
  {
    if n > 0 {
      KeptBelowLists(m, n - 1);
      var ks := KeptBelow(m, n - 1);
      if m[n - 1] {
        assert KeptBelow(m, n) == ks + [n - 1];
        assert n - 1 == KeptBelow(m, n)[|ks|];
      } else {
        assert KeptBelow(m, n) == ks;
      }
    }
  }

  /** The selected positions are listed in increasing order. */
  lemma {:induction false} KeptIncreasing(m: seq<bool>, n: nat)
    requires n <= |m|
    ensures forall j, k :: 0 <= j < k < |KeptBelow(m, n)| ==> KeptBelow(m, n)[j] < KeptBelow(m, n)[k]
  {
    if n > 0 {
      KeptIncreasing(m, n - 1);
      KeptBelowLists(m, n - 1);
      var ks := KeptBelow(m, n - 1);
      if m[n - 1] {
        assert KeptBelow(m, n) == ks + [n - 1];
      } else {
        assert KeptBelow(m, n) == ks;
      }
    }
  }

  lemma {:induction false} CompressBelowPicks<T>(xs: seq<T>, m: seq<bool>, n: nat)
    requires |xs| == |m| && n <= |m|
    ensures ListsSelected(m, n, KeptBelow(m, n))
    ensures forall k :: 0 <= k < |CompressBelow(xs, m, n)| ==> CompressBelow(xs, m, n)[k] == xs[KeptBelow(m, n)[k]]
  {
    KeptBelowLists(m, n);
    if n > 0 {
      CompressBelowPicks(xs, m, n - 1);
    }
  }

  /** Two arrays indexed by the same mask stay paired index for index: the
      k-th element of each comes from the same position `Kept(m)[k]`. */
  lemma CompressPicks<T>(xs: seq<T>, m: seq<bool>)
    requires |xs| == |m|
    ensures |Compress(xs, m)| == |Kept(m)| <= |m| && ListsSelected(m, |m|, Kept(m))
    ensures forall k :: 0 <= k < |Kept(m)| ==> Compress(xs, m)[k] == xs[Kept(m)[k]]
  {
    CompressBelowPicks(xs, m, |m|);
  }

  /** The largest of `s[0]`, ..., `s[n - 1]`. */
  function MaxBelow(s: seq<real>, n: nat): real
    requires 0 < n <= |s|
  {
    if n == 1 then s[0]
    else
      var m := MaxBelow(s, n - 1);
      if m < s[n - 1] then s[n - 1] else m
  }

  /** `np.max` of a non-empty array. */
  function Max(s: seq<real>): real
    requires |s| > 0
  {
    MaxBelow(s, |s|)
  }

  /** The smallest of `s[0]`, ..., `s[n - 1]`. */
  function MinBelow(s: seq<real>, n: nat): real
    requires 0 < n <= |s|
  {
    if n == 1 then s[0]
    else
      var m := MinBelow(s, n - 1);
      if s[n - 1] < m then s[n - 1] else m
  }

  /** The maximum is one of the elements and no element exceeds it. */
  lemma {:induction false} MaxBelowIsMaximum(s: seq<real>, n: nat)
    requires 0 < n <= |s|
    ensures exists i :: 0 <= i < n && s[i] == MaxBelow(s, n)
    ensures forall i :: 0 <= i < n ==> s[i] <= MaxBelow(s, n)
  {
    if n == 1 {
      assert s[0] == MaxBelow(s, n);
    } else {
      MaxBelowIsMaximum(s, n - 1);
      var m := MaxBelow(s, n - 1);
      if m < s[n - 1] {
        assert s[n - 1] == MaxBelow(s, n);
      } else {
        var i :| 0 <= i < n - 1 && s[i] == m;
        assert s[i] == MaxBelow(s, n);
      }
    }
  }

  /** `Max(s)` is an element of `s` that no element exceeds. */
  lemma MaxIsMaximum(s: seq<real>)
    requires |s| > 0
    ensures Max(s) in s && forall i :: 0 <= i < |s| ==> s[i] <= Max(s)
  {
    MaxBelowIsMaximum(s, |s|);
  }

  /** The minimum is one of the elements and exceeds none of them. */
  lemma {:induction false} MinBelowIsMinimum(s: seq<real>, n: nat)
    requires 0 < n <= |s|
    ensures exists i :: 0 <= i < n && s[i] == MinBelow(s, n)
    ensures forall i :: 0 <= i < n ==> MinBelow(s, n) <= s[i]
  {
    if n == 1 {
      assert s[0] == MinBelow(s, n);
    } else {
      MinBelowIsMinimum(s, n - 1);
      var m := MinBelow(s, n - 1);
      if s[n - 1] < m {
        assert s[n - 1] == MinBelow(s, n);
      } else {
        var i :| 0 <= i < n - 1 && s[i] == m;
        assert s[i] == MinBelow(s, n);
      }
    }
  }

  /** A mask that holds wherever a second one does selects at least as many positions. */
  lemma {:induction false} KeptMonotone(m1: seq<bool>, m2: seq<bool>, n: nat)
    requires |m1| == |m2| && n <= |m1|
    requires forall i :: 0 <= i < |m1| && m1[i] ==> m2[i]
    ensures |KeptBelow(m1, n)| <= |KeptBelow(m2, n)|
  {
    if n > 0 {
      KeptMonotone(m1, m2, n - 1);
    }
  }

  /** A mask that holds exactly on the first `p` positions selects exactly those. */
  lemma {:induction false} KeptPrefix(m: seq<bool>, p: nat, n: nat)
    requires p <= n <= |m|
    requires forall i :: 0 <= i < n ==> (m[i] <==> i < p)
    ensures |KeptBelow(m, n)| == p
    ensures forall k :: 0 <= k < p ==> KeptBelow(m, n)[k] == k
  {
    if n > 0 {
      if p == n {
        KeptPrefix(m, n - 1, n - 1);
        assert KeptBelow(m, n) == KeptBelow(m, n - 1) + [n - 1];
      } else {
        KeptPrefix(m, p, n - 1);
        assert KeptBelow(m, n) == KeptBelow(m, n - 1);
      }
    }
  }
  /** Indexing by a mask that holds on the first `p` positions only is taking the first `p` elements. */
  lemma CompressPrefix<T>(xs: seq<T>, m: seq<bool>, p: nat)
    requires |xs| == |m| && p <= |m|
    requires forall i :: 0 <= i < |m| ==> (m[i] <==> i < p)
    ensures Compress(xs, m) == xs[..p]
  {
    KeptPrefix(m, p, |m|);
    CompressPicks(xs, m);
  }

  /** A mask that never holds after a position where it fails selects a prefix:
      it holds at exactly the first `|Kept(m)|` positions. */
  lemma DownwardClosedMaskIsPrefix(m: seq<bool>)
    requires forall i, j :: 0 <= i < j < |m| && m[j] ==> m[i]
    ensures forall i :: 0 <= i < |m| ==> (m[i] <==> i < |Kept(m)|)
  {
    var p := 0;
    while p < |m| && m[p]
      invariant p <= |m| && forall i :: 0 <= i < p ==> m[i]
    {
      p := p + 1;
    }
    KeptPrefix(m, p, |m|);
  }
}
