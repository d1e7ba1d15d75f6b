/**
 * Hierarchization of one dimension (`nodal_2_hier_1d`, sparse_grid/grid.py):
 * the walk from a point to its two hierarchical parents, the splice that
 * puts a pair back into a node of the other dimensions, the four-case
 * subtraction rule, and, as its specification, the simultaneous update of
 * a whole map of values together with its inverse.
 */
module Hierarchy {
  import opened Utils
  import opened MultiIndex

  // ---------------------------------------------------------------------
  // the ancestor walk
  // ---------------------------------------------------------------------

  /**
   * `[l, p]` is halved, one level down at a time, while its position is even
   * and its level positive: the same point named on the coarsest level.
   */
  function Reduce(l: int, p: int): (r: seq<int>)
    ensures |r| == 2
    ensures l >= 0 ==> 0 <= r[0] <= l
    decreases l
  {
    if p % 2 == 0 && l > 0 then Reduce(l - 1, p / 2) else [l, p]
  }

  /** The `while` loops of `nodal_2_hier_1d` that walk one parent down to its coarsest name. */
  method WalkToAncestor(l: int, p: int) returns (r: seq<int>)
    ensures r == Reduce(l, p)
  {
    r := [l, p];
    while r[1] % 2 == 0 && r[0] > 0
      invariant |r| == 2
      invariant Reduce(r[0], r[1]) == Reduce(l, p)
      decreases r[0]
    {
      r := [r[0] - 1, r[1] / 2];
    }
  }

  /**
   * The walk keeps the point: `p' · 2^(l − l') == p`. It stops at level 0 or
   * at an odd position, and never leaves `[0, l]`.
   */
  lemma {:induction false} ReduceSpec(l: int, p: int)
    requires l >= 0 && p >= 0
    ensures 0 <= Reduce(l, p)[0] <= l && Reduce(l, p)[1] >= 0
    ensures Reduce(l, p)[1] * Pow2(l - Reduce(l, p)[0]) == p
    ensures Reduce(l, p)[0] == 0 || Reduce(l, p)[1] % 2 == 1
    decreases l
  {
    var r := Reduce(l, p);
    if p % 2 == 0 && l > 0 {
      ReduceSpec(l - 1, p / 2);
      assert r == Reduce(l - 1, p / 2);
      var x := Pow2(l - 1 - r[0]);
      assert Pow2(l - r[0]) == 2 * x;
      assert r[1] * (2 * x) == 2 * (r[1] * x);
    }
  }

  /** The left parent of `[i, j]`: `[i − 1, j // 2]`, walked down. */
  function LeftParent(i: int, j: int): (r: seq<int>)
    ensures |r| == 2
  {
    Reduce(i - 1, j / 2)
  }

  /** The right parent of `[i, j]`: `[i − 1, j // 2 + 1]`, walked down. */
  function RightParent(i: int, j: int): (r: seq<int>)
    ensures |r| == 2
  {
    Reduce(i - 1, j / 2 + 1)
  }

  lemma MulAtLeast(a: int, c: int)
    requires a >= 1 && c >= 0
    ensures a * c >= c
  {
  }

  lemma MulCancelLe(a: int, b: int, c: int)
    requires c > 0 && a * c <= b * c
    ensures a <= b
  {
    if a > b {
      assert a * c - b * c == (a - b) * c;
      MulAtLeast(a - b, c);
    }
  }

  /** One level down and walked: `[i − 1, q]` names the point `2·q / 2^i`. */
  lemma ParentScale(i: int, q: int)
    requires i >= 1 && q >= 0
    ensures 0 <= Reduce(i - 1, q)[0] < i && Reduce(i - 1, q)[1] >= 0
    ensures Reduce(i - 1, q)[1] * Pow2(i - Reduce(i - 1, q)[0]) == 2 * q
    ensures Pow2(i) == Pow2(Reduce(i - 1, q)[0]) * Pow2(i - Reduce(i - 1, q)[0])
    ensures Reduce(i - 1, q)[0] == 0 || Reduce(i - 1, q)[1] % 2 == 1
  {
    var r := Reduce(i - 1, q);
    ReduceSpec(i - 1, q);
    var x := Pow2(i - 1 - r[0]);
    var c := Pow2(i - r[0]);
    assert c == 2 * x;
    assert r[1] * c == 2 * (r[1] * x);
    Pow2Add(r[0], i - r[0]);
  }

  /**
   * The left parent of a valid `[i, j]` is the point `(j − 1) / 2^i` named on
   * a coarser level; it is the boundary (level 0) exactly when `j == 1`, and
   * a valid pair otherwise.
   */
  lemma LeftParentSpec(i: int, j: int)
    requires ValidPair(i, j)
    ensures 0 <= LeftParent(i, j)[0] < i
    ensures LeftParent(i, j)[1] * Pow2(i - LeftParent(i, j)[0]) == j - 1
    ensures LeftParent(i, j)[0] == 0 <==> j == 1
    ensures LeftParent(i, j)[0] != 0 ==> ValidPair(LeftParent(i, j)[0], LeftParent(i, j)[1])
  {
    var r := LeftParent(i, j);
    ParentScale(i, j / 2);
    var c := Pow2(i - r[0]);
    assert r[1] * c == j - 1;
    if r[0] == 0 {
      if r[1] >= 1 {
        MulAtLeast(r[1], c);
      }
    }
    if j == 1 {
      assert r[1] == 0 by {
        if r[1] >= 1 {
          MulAtLeast(r[1], c);
        }
      }
    }
    if r[0] != 0 {
      MulCancelLe(r[1], Pow2(r[0]), c);
      assert r[1] != Pow2(r[0]);
    }
  }

  /**
   * The right parent of a valid `[i, j]` is the point `(j + 1) / 2^i` named
   * on a coarser level; it is the boundary (level 0) exactly when
   * `j == 2^i − 1`, and a valid pair otherwise.
   */
  lemma RightParentSpec(i: int, j: int)
    requires ValidPair(i, j)
    ensures 0 <= RightParent(i, j)[0] < i
    ensures RightParent(i, j)[1] * Pow2(i - RightParent(i, j)[0]) == j + 1
    ensures RightParent(i, j)[0] == 0 <==> j == Pow2(i) - 1
    ensures RightParent(i, j)[0] != 0 ==> ValidPair(RightParent(i, j)[0], RightParent(i, j)[1])
  {
    ParentScale(i, j / 2 + 1);
    if RightParent(i, j)[0] == 0 {
      RightParentBoundary(i, j);
    } else {
      RightParentInside(i, j);
    }
  }

  lemma RightParentBoundary(i: int, j: int)
    requires ValidPair(i, j) && RightParent(i, j)[0] == 0
    ensures j == Pow2(i) - 1
  {
    var r := RightParent(i, j);
    ParentScale(i, j / 2 + 1);
    assert r[1] * Pow2(i) == j + 1;
    if r[1] >= 2 {
      MulAtLeast(r[1] - 1, Pow2(i));
      assert r[1] * Pow2(i) == (r[1] - 1) * Pow2(i) + Pow2(i);
    }
  }

  lemma RightParentInside(i: int, j: int)
    requires ValidPair(i, j) && RightParent(i, j)[0] != 0
    ensures ValidPair(RightParent(i, j)[0], RightParent(i, j)[1])
    ensures j + 1 < Pow2(i)
  {
    var r := RightParent(i, j);
    ParentScale(i, j / 2 + 1);
    var c := Pow2(i - r[0]);
    var e := Pow2(r[0]);
    OddBelowEven(r[1], e, c);
    MulLtStrict(r[1], e, c);
  }

  lemma MulLtStrict(a: int, e: int, c: int)
    requires c > 0 && a < e
    ensures a * c < e * c
  {
    MulAtLeast(e - a, c);
    assert e * c - a * c == (e - a) * c;
  }

  /** An odd `a` with `a·c ≤ e·c` lies strictly below the even `e`. */
  lemma OddBelowEven(a: int, e: int, c: int)
    requires c > 0 && a % 2 == 1 && e % 2 == 0 && a * c <= e * c
    ensures a < e
  {
    MulCancelLe(a, e, c);
  }

  // ---------------------------------------------------------------------
  // the splice
  // ---------------------------------------------------------------------

  /** Python's `s[lo:hi]` for non-negative bounds: both ends clamped to the length. */
  function PySlice(s: seq<int>, lo: nat, hi: nat): (r: seq<int>)
    ensures |r| <= |s|
    ensures lo <= hi <= |s| ==> r == s[lo..hi]
  {
    var h := if hi < |s| then hi else |s|;
    var l := if lo < h then lo else h;
    s[l..h]
  }

  /**
   * The three branches that put `pair` into `node` as dimension `d`: the
   * general slice for nodes longer than one pair, and a prepend or an
   * append for a node of at most one pair.
   */
  function SpliceBranches(node: seq<int>, d: nat, pair: seq<int>): (r: seq<int>)
    ensures |r| == |node| + |pair|
  {
    if |node| > 2 then PySlice(node, 0, 2 * d) + pair + PySlice(node, 2 * d, |node| + 1)
    else if d == 0 then pair + node
    else node + pair
  }

  /**
   * All three branches insert the pair at offset `min(2·d, |node|)`, which
   * is `Insert` whenever dimension `d` exists in the node.
   */
  lemma SpliceAt(node: seq<int>, d: nat, pair: seq<int>)
    ensures var m := if 2 * d < |node| then 2 * d else |node|;
      SpliceBranches(node, d, pair) == node[..m] + pair + node[m..]
    ensures 2 * d <= |node| ==> SpliceBranches(node, d, pair) == Insert(node, d, pair)
  {
    var m := if 2 * d < |node| then 2 * d else |node|;
    if |node| > 2 {
      assert PySlice(node, 0, 2 * d) == node[..m];
      assert PySlice(node, 2 * d, |node| + 1) == node[m..];
    } else if d == 0 {
      assert node[..0] == [] && node[0..] == node;
    } else {
      assert m == |node|;
      assert node[..m] == node && node[m..] == [];
    }
  }

  // ---------------------------------------------------------------------
  // the subtraction rule
  // ---------------------------------------------------------------------

  /** Half the value of a parent that exists; a boundary parent (level 0) contributes nothing. */
  function ParentShare(value: real, parentLevel: int): real
  {
    if parentLevel != 0 then 0.5 * value else 0.0
  }

  /**
   * The four cases of the update of `hv`: subtract half of the right parent,
   * nothing, half of the left parent, or half of their sum. Together they
   * subtract half of every parent that is not on the boundary.
   */
  function Surplus(own: real, left: real, leftLevel: int, right: real, rightLevel: int): (r: real)
    ensures r == own - ParentShare(left, leftLevel) - ParentShare(right, rightLevel)
  {
    if leftLevel == 0 then
      if rightLevel != 0 then own - 0.5 * right else own
    else if rightLevel == 0 then own - 0.5 * left
    else own - 0.5 * (left + right)
  }

  // ---------------------------------------------------------------------
  // the specification on a whole map of values
  // ---------------------------------------------------------------------

  /** Values of the grid points, by multi-index. */
  type Values = map<seq<int>, real>

  function Lookup(m: Values, k: seq<int>): real
  {
    if k in m then m[k] else 0.0
  }

  /** `k` has a pair of level at least 1 in dimension `d`. */
  predicate HasLevel(k: seq<int>, d: nat)
  {
    2 * d + 2 <= |k| && k[2 * d] >= 1
  }

  /** `k` with the pair of dimension `d` replaced by its left parent. */
  function LeftKey(k: seq<int>, d: nat): (r: seq<int>)
    requires 2 * d + 2 <= |k|
    ensures |r| == |k|
  {
    var lp := LeftParent(k[2 * d], k[2 * d + 1]);
    k[2 * d := lp[0]][2 * d + 1 := lp[1]]
  }

  /** `k` with the pair of dimension `d` replaced by its right parent. */
  function RightKey(k: seq<int>, d: nat): (r: seq<int>)
    requires 2 * d + 2 <= |k|
    ensures |r| == |k|
  {
    var rp := RightParent(k[2 * d], k[2 * d + 1]);
    k[2 * d := rp[0]][2 * d + 1 := rp[1]]
  }

  /** The new value of `k`: its own value less half of each parent that is not on the boundary. */
  function HierarchizeValue(m: Values, k: seq<int>, d: nat): real
    requires 2 * d + 2 <= |k|
  {
    var lk := LeftKey(k, d);
    var rk := RightKey(k, d);
    Surplus(Lookup(m, k), Lookup(m, lk), lk[2 * d], Lookup(m, rk), rk[2 * d])
  }

  /** Hierarchization of dimension `d`: every point updated from the values before the pass. */
  function HierarchizeDim(m: Values, d: nat): (r: Values)
    ensures r.Keys == m.Keys
  {
    map k | k in m :: if HasLevel(k, d) then HierarchizeValue(m, k, d) else m[k]
  }

  /** Hierarchization of dimensions `0, 1, …, n − 1`, in that order. */
  function HierarchizeUpTo(m: Values, n: nat): (r: Values)
    ensures r.Keys == m.Keys
  {
    if n == 0 then m else HierarchizeDim(HierarchizeUpTo(m, n - 1), n - 1)
  }

  /** The new value depends only on the values of the point and of its parents off the boundary. */
  lemma HierarchizeValueAgree(m1: Values, m2: Values, k: seq<int>, d: nat)
    requires 2 * d + 2 <= |k|
    requires Lookup(m1, k) == Lookup(m2, k)
    requires LeftKey(k, d)[2 * d] != 0 ==> Lookup(m1, LeftKey(k, d)) == Lookup(m2, LeftKey(k, d))
    requires RightKey(k, d)[2 * d] != 0 ==> Lookup(m1, RightKey(k, d)) == Lookup(m2, RightKey(k, d))
    ensures HierarchizeValue(m1, k, d) == HierarchizeValue(m2, k, d)
  {
  }

  /** The parents of a point with a positive level have smaller levels, and stay at or above 0. */
  lemma ParentLevels(k: seq<int>, d: nat)
    requires HasLevel(k, d)
    ensures 0 <= LeftKey(k, d)[2 * d] < k[2 * d]
    ensures 0 <= RightKey(k, d)[2 * d] < k[2 * d]
  {
  }

  /**
   * Dehierarchization in dimension `d`: the nodal value of `k` is its
   * hierarchical value plus half the nodal value of each parent that is not
   * on the boundary.
   */
  function NodalAt(h: Values, k: seq<int>, d: nat): real
    requires HasLevel(k, d)
    decreases k[2 * d]
  {
    ParentLevels(k, d);
    var lk := LeftKey(k, d);
    var rk := RightKey(k, d);
    Lookup(h, k)
      + (if lk[2 * d] != 0 then 0.5 * NodalAt(h, lk, d) else 0.0)
      + (if rk[2 * d] != 0 then 0.5 * NodalAt(h, rk, d) else 0.0)
  }

  /** The inverse of `HierarchizeDim`. */
  function DehierarchizeDim(h: Values, d: nat): (r: Values)
    ensures r.Keys == h.Keys
  {
    map k | k in h :: if HasLevel(k, d) then NodalAt(h, k, d) else h[k]
  }

  /** The inverse of `HierarchizeUpTo`: dimensions `n − 1, …, 1, 0`, in that order. */
  function DehierarchizeDownFrom(h: Values, n: nat): (r: Values)
    ensures r.Keys == h.Keys
  {
    if n == 0 then h else DehierarchizeDownFrom(DehierarchizeDim(h, n - 1), n - 1)
  }

  /** Every parent off the boundary of a point of `keys` is itself in `keys`. */
  predicate ParentClosed(keys: set<seq<int>>, d: nat)
  {
    forall k :: k in keys && HasLevel(k, d) ==>
      (LeftKey(k, d)[2 * d] != 0 ==> LeftKey(k, d) in keys) &&
      (RightKey(k, d)[2 * d] != 0 ==> RightKey(k, d) in keys)
  }

  /** Dehierarchizing a hierarchized point gives back its nodal value. */
  lemma {:induction false} NodalAtHierarchize(m: Values, k: seq<int>, d: nat)
    requires ParentClosed(m.Keys, d)
    requires k in m && HasLevel(k, d)
    ensures NodalAt(HierarchizeDim(m, d), k, d) == m[k]
    decreases k[2 * d]
  {
    var h := HierarchizeDim(m, d);
    var lk := LeftKey(k, d);
    var rk := RightKey(k, d);
    ParentLevels(k, d);
    if lk[2 * d] != 0 {
      NodalAtHierarchize(m, lk, d);
    }
    if rk[2 * d] != 0 {
      NodalAtHierarchize(m, rk, d);
    }
    assert h[k] == HierarchizeValue(m, k, d);
  }

  /** `DehierarchizeDim` undoes `HierarchizeDim` on a parent-closed set of points. */
  lemma DehierarchizeHierarchize(m: Values, d: nat)
    requires ParentClosed(m.Keys, d)
    ensures DehierarchizeDim(HierarchizeDim(m, d), d) == m
  {
    var r := DehierarchizeDim(HierarchizeDim(m, d), d);
    forall k | k in m ensures r[k] == m[k] {
      if HasLevel(k, d) {
        NodalAtHierarchize(m, k, d);
      }
    }
  }

  /** `HierarchizeDim` undoes `DehierarchizeDim` on a parent-closed set of points. */
  lemma HierarchizeDehierarchize(h: Values, d: nat)
    requires ParentClosed(h.Keys, d)
    ensures HierarchizeDim(DehierarchizeDim(h, d), d) == h
  {
    var n := DehierarchizeDim(h, d);
    var r := HierarchizeDim(n, d);
    forall k | k in h ensures r[k] == h[k] {
      if HasLevel(k, d) {
        var lk := LeftKey(k, d);
        var rk := RightKey(k, d);
        ParentLevels(k, d);
        assert Lookup(n, k) == NodalAt(h, k, d);
        assert lk[2 * d] != 0 ==> Lookup(n, lk) == NodalAt(h, lk, d);
        assert rk[2 * d] != 0 ==> Lookup(n, rk) == NodalAt(h, rk, d);
      }
    }
  }

  /** Over all `n` dimensions the nodal values are recovered from the hierarchical ones. */
  lemma {:induction false} RecoverNodal(m: Values, n: nat)
    requires forall d :: 0 <= d < n ==> ParentClosed(m.Keys, d)
    ensures DehierarchizeDownFrom(HierarchizeUpTo(m, n), n) == m
  {
    if n > 0 {
      var a := HierarchizeUpTo(m, n - 1);
      DehierarchizeHierarchize(a, n - 1);
      RecoverNodal(m, n - 1);
    }
  }

  lemma ClosedUpTo(keys: set<seq<int>>, keys': set<seq<int>>, n: nat)
    requires keys' == keys
    requires forall d :: 0 <= d <= n ==> ParentClosed(keys, d)
    ensures forall d :: 0 <= d < n ==> ParentClosed(keys', d)
  {
  }

  /** And every map of hierarchical values is the hierarchization of exactly one map of nodal values. */
  lemma {:induction false} RecoverHierarchical(h: Values, n: nat)
    requires forall d :: 0 <= d < n ==> ParentClosed(h.Keys, d)
    ensures HierarchizeUpTo(DehierarchizeDownFrom(h, n), n) == h
  {
    if n > 0 {
      var h1 := DehierarchizeDim(h, n - 1);
      ClosedUpTo(h.Keys, h1.Keys, n - 1);
      RecoverHierarchical(h1, n - 1);
      RecoverStep(h, n);
    }
  }

  /** One more dimension: undoing and redoing dimension `n − 1` around the first `n − 1`. */
  lemma RecoverStep(h: Values, n: nat)
    requires n >= 1 && ParentClosed(h.Keys, n - 1)
    requires HierarchizeUpTo(DehierarchizeDownFrom(DehierarchizeDim(h, n - 1), n - 1), n - 1) == DehierarchizeDim(h, n - 1)
    ensures HierarchizeUpTo(DehierarchizeDownFrom(h, n), n) == h
  {
    HierarchizeDehierarchize(h, n - 1);
  }

  /** The replacement of dimension `d` by a parent is the splice of that parent into the node. */
  lemma ParentKeyIsInsert(node: seq<int>, d: nat, i: int, j: int)
    requires 2 * d <= |node|
    ensures LeftKey(Insert(node, d, [i, j]), d) == Insert(node, d, LeftParent(i, j))
    ensures RightKey(Insert(node, d, [i, j]), d) == Insert(node, d, RightParent(i, j))
  {
    var k := Insert(node, d, [i, j]);
    RemoveInsert(node, d, [i, j]);
    InsertAt(node, d, i, j);
    var lp := LeftParent(i, j);
    var rp := RightParent(i, j);
    ReplaceIsInsert(k, d, lp[0], lp[1]);
    ReplaceIsInsert(k, d, rp[0], rp[1]);
    assert lp == [lp[0], lp[1]] && rp == [rp[0], rp[1]];
  }

  /**
   * The admissible indices of a regular sparse grid are parent-closed in
   * every dimension: a parent off the boundary has a smaller level there.
   */
  lemma AdmissibleParentClosed(keys: set<seq<int>>, dim: nat, level: int, d: nat)
    requires d < dim
    requires forall k :: k in keys <==> Admissible(k, dim, level)
    ensures ParentClosed(keys, d)
  {
    forall k | k in keys && HasLevel(k, d)
      ensures LeftKey(k, d)[2 * d] != 0 ==> LeftKey(k, d) in keys
      ensures RightKey(k, d)[2 * d] != 0 ==> RightKey(k, d) in keys
    {
      AdmissibleParent(k, dim, level, d);
    }
  }

  lemma AdmissibleParent(k: seq<int>, dim: nat, level: int, d: nat)
    requires d < dim && Admissible(k, dim, level) && HasLevel(k, d)
    ensures LeftKey(k, d)[2 * d] != 0 ==> Admissible(LeftKey(k, d), dim, level)
    ensures RightKey(k, d)[2 * d] != 0 ==> Admissible(RightKey(k, d), dim, level)
  {
    WellFormedLength(k, dim);
    var node := Remove(k, d);
    var i, j := k[2 * d], k[2 * d + 1];
    InsertRemove(k, d);
    InsertAdmissible(node, dim, level, d, i, j);
    assert Admissible(node, dim - 1, level - i + 1);
    ParentKeyIsInsert(node, d, i, j);
    LeftParentSpec(i, j);
    RightParentSpec(i, j);
    var lp := LeftParent(i, j);
    var rp := RightParent(i, j);
    assert lp == [lp[0], lp[1]] && rp == [rp[0], rp[1]];
    InsertAt(node, d, lp[0], lp[1]);
    InsertAt(node, d, rp[0], rp[1]);
    InsertAdmissible(node, dim, level, d, lp[0], lp[1]);
    InsertAdmissible(node, dim, level, d, rp[0], rp[1]);
  }
}
