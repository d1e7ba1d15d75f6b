/**
 * The sparse grid object (`SparseGrid`, sparse_grid/grid.py): its points,
 * keyed by multi-index, are generated once, their nodal values are turned
 * into hierarchical values in place, dimension by dimension, and the
 * interpolant is evaluated by a traversal of the hierarchical subspaces
 * that accumulates into a field.
 */
module Grid {
  import opened Wrappers
  import opened Utils
  import opened Point
  import opened MultiIndex
  import opened Generation
  import opened Hierarchy
  import opened Evaluation
  import opened Exactness

  /** The grid's points, by multi-index (`g_p`). */
  type Points = map<seq<int>, GridPoint>

  /** The hierarchical values of the points. */
  function HvMap(gp: Points): (m: Values)
    ensures m.Keys == gp.Keys
    ensures forall k :: k in gp ==> m[k] == gp[k].hv
  {
    map k | k in gp :: gp[k].hv
  }

  /** The nodal values of the points. */
  function FvMap(gp: Points): (m: Values)
    ensures m.Keys == gp.Keys
    ensures forall k :: k in gp ==> m[k] == gp[k].fv
  {
    map k | k in gp :: gp[k].fv
  }

  /** The same points, at the same positions, with the same nodal values; only `hv` may differ. */
  predicate SameNodes(gp: Points, g0: Points)
  {
    gp.Keys == g0.Keys && forall k :: k in gp ==> gp[k].pos == g0[k].pos && gp[k].fv == g0[k].fv
  }

  /** Changing one point's `hv` keeps the nodes. */
  lemma KeepNodes(gp: Points, g0: Points, k: seq<int>, v: real)
    requires SameNodes(gp, g0) && k in gp
    ensures SameNodes(gp[k := gp[k].(hv := v)], g0)
  {
  }

  // ---------------------------------------------------------------------
  // the keys one step of the hierarchization touches
  // ---------------------------------------------------------------------

  /**
   * An admissible index, split at dimension `d`: a valid pair of level at
   * most `level`, and the rest is one of the nodes the pass over that level
   * walks through.
   */
  lemma AdmissibleAt(y: seq<int>, dim: nat, level: nat, d: nat)
    requires dim >= 2 && d < dim && Admissible(y, dim, level)
    ensures |y| == 2 * dim
    ensures ValidPair(y[2 * d], y[2 * d + 1]) && y[2 * d] <= level
    ensures Remove(y, d) in GeneratePointsRec(dim - 1, level - y[2 * d] + 1, 1)
  {
    WellFormedLength(y, dim);
    var node := Remove(y, d);
    var i, j := y[2 * d], y[2 * d + 1];
    InsertRemove(y, d);
    InsertAdmissible(node, dim, level, d, i, j);
    assert Admissible(node, dim - 1, level - i + 1);
    LevelSumAtLeastDim(node, dim - 1);
    assert 1 <= i <= level;
    assert |node| >= 2 && node[0] >= 1;
    GenerateMember(dim - 1, level - i + 1, 1, node);
  }

  /** A generated index is admissible, and has one pair per dimension. */
  lemma Generated(dim: nat, level: nat, node: seq<int>)
    requires dim >= 1 && level >= 1
    requires node in GeneratePointsRec(dim, level, 1)
    ensures Admissible(node, dim, level) && |node| == 2 * dim
  {
    GenerateMember(dim, level, 1, node);
    WellFormedLength(node, dim);
  }

  /**
   * A node of the pass over level `i` with the pair `[i, j]` inserted is a
   * grid point, and so is each of its parents off the boundary.
   */
  lemma ParentKeys(node: seq<int>, i: int, j: int, d: nat, dim: nat, level: nat)
    requires dim >= 2 && d < dim && |node| == 2 * (dim - 1) && ValidPair(i, j)
    requires Admissible(node, dim - 1, level - i + 1)
    ensures Admissible(Insert(node, d, [i, j]), dim, level)
    ensures LeftParent(i, j)[0] != 0 ==> Admissible(Insert(node, d, LeftParent(i, j)), dim, level)
    ensures RightParent(i, j)[0] != 0 ==> Admissible(Insert(node, d, RightParent(i, j)), dim, level)
  {
    InsertAdmissible(node, dim, level, d, i, j);
    ParentsValid(i, j);
    InsertParent(node, i, LeftParent(i, j), d, dim, level);
    InsertParent(node, i, RightParent(i, j), d, dim, level);
  }

  /** Both parents of a valid pair have lower levels, and are valid pairs off the boundary. */
  lemma ParentsValid(i: int, j: int)
    requires ValidPair(i, j)
    ensures 0 <= LeftParent(i, j)[0] < i && 0 <= RightParent(i, j)[0] < i
    ensures LeftParent(i, j)[0] != 0 ==> ValidPair(LeftParent(i, j)[0], LeftParent(i, j)[1])
    ensures RightParent(i, j)[0] != 0 ==> ValidPair(RightParent(i, j)[0], RightParent(i, j)[1])
  {
    LeftParentSpec(i, j);
    RightParentSpec(i, j);
  }

  /** A valid pair of a level below `i` fits into a node of the pass over level `i`. */
  lemma InsertParent(node: seq<int>, i: int, pair: seq<int>, d: nat, dim: nat, level: nat)
    requires dim >= 2 && d < dim && |node| == 2 * (dim - 1)
    requires Admissible(node, dim - 1, level - i + 1)
    requires |pair| == 2 && pair[0] < i
    requires pair[0] != 0 ==> ValidPair(pair[0], pair[1])
    ensures pair[0] != 0 ==> Admissible(Insert(node, d, pair), dim, level)
  {
    assert pair == [pair[0], pair[1]];
    InsertAdmissible(node, dim, level, d, pair[0], pair[1]);
  }

  // ---------------------------------------------------------------------
  // the progress of one pass of `nodal_2_hier`
  // ---------------------------------------------------------------------

  /** Every key has a valid pair of level at most `level` in dimension `d`. */
  ghost predicate Layout(keys: set<seq<int>>, level: nat, d: nat)
  {
    forall y :: y in keys ==> 2 * d + 2 <= |y| && ValidPair(y[2 * d], y[2 * d + 1]) && y[2 * d] <= level
  }

  /** `others` lists the other dimensions of every key of level `i` in dimension `d`. */
  ghost predicate NodesOf(keys: set<seq<int>>, d: nat, i: int, others: seq<seq<int>>)
  {
    forall y :: y in keys && 2 * d + 2 <= |y| && y[2 * d] == i ==> Remove(y, d) in others
  }

  /** The admissible indices have the layout of the passes over dimension `d`. */
  lemma AdmissibleLayout(keys: set<seq<int>>, dim: nat, level: nat, d: nat)
    requires dim >= 2 && d < dim
    requires forall k :: k in keys ==> Admissible(k, dim, level)
    ensures Layout(keys, level, d)
  {
    forall y | y in keys ensures 2 * d + 2 <= |y| && ValidPair(y[2 * d], y[2 * d + 1]) && y[2 * d] <= level {
      AdmissibleAt(y, dim, level, d);
    }
  }

  /** Every grid point of level `i` in dimension `d` is one of the nodes of the pass over level `i`, with `[i, j]` inserted. */
  lemma LevelNodes(keys: set<seq<int>>, dim: nat, level: nat, d: nat, i: int)
    requires dim >= 2 && d < dim && 1 <= i <= level
    requires forall k :: k in keys ==> Admissible(k, dim, level)
    ensures NodesOf(keys, d, i, GeneratePointsRec(dim - 1, level - i + 1, 1))
  {
    forall y | y in keys && 2 * d + 2 <= |y| && y[2 * d] == i
      ensures Remove(y, d) in GeneratePointsRec(dim - 1, level - i + 1, 1)
    {
      AdmissibleAt(y, dim, level, d);
    }
  }

  /** Each node of the pass over level `i` is admissible for the other dimensions under the budget `level − i + 1`. */
  lemma NodesAdmissible(dim: nat, level: nat, i: int)
    requires dim >= 2 && 1 <= i <= level
    ensures var others := GeneratePointsRec(dim - 1, level - i + 1, 1);
      forall n :: 0 <= n < |others| ==> |others[n]| == 2 * (dim - 1) && Admissible(others[n], dim - 1, level - i + 1)
  {
    var others := GeneratePointsRec(dim - 1, level - i + 1, 1);
    forall n | 0 <= n < |others| ensures |others[n]| == 2 * (dim - 1) && Admissible(others[n], dim - 1, level - i + 1) {
      Generated(dim - 1, level - i + 1, others[n]);
    }
  }

  /** What the pass over level `i` needs to know of its nodes. */
  lemma LevelSetup(keys: set<seq<int>>, dim: nat, level: nat, d: nat, i: int, others: seq<seq<int>>)
    requires dim >= 2 && d < dim && 1 <= i <= level
    requires forall k :: k in keys ==> Admissible(k, dim, level)
    requires others == GeneratePointsRec(dim - 1, level - i + 1, 1)
    ensures NoRepeats(others) && NodesOf(keys, d, i, others)
  {
    LevelNodes(keys, dim, level, d, i);
    LevelNoRepeats(dim, level, i);
  }

  /** Every key the calls of `nodal_2_hier_1d` at level `i` and position `j` read or write. */
  ghost predicate PositionKeys(keys: set<seq<int>>, others: seq<seq<int>>, d: nat, i: int, j: int)
  {
    forall n :: 0 <= n < |others| ==>
      2 * d <= |others[n]| &&
      Insert(others[n], d, [i, j]) in keys &&
      (LeftParent(i, j)[0] != 0 ==> Insert(others[n], d, LeftParent(i, j)) in keys) &&
      (RightParent(i, j)[0] != 0 ==> Insert(others[n], d, RightParent(i, j)) in keys)
  }

  /** The keys of node `n`, on a grid with the same keys. */
  lemma PositionKeysAt(gp: Points, g0: Points, others: seq<seq<int>>, d: nat, i: int, j: int, n: nat)
    requires gp.Keys == g0.Keys && PositionKeys(g0.Keys, others, d, i, j) && n < |others|
    ensures 2 * d <= |others[n]| && Insert(others[n], d, [i, j]) in gp
    ensures LeftParent(i, j)[0] != 0 ==> Insert(others[n], d, LeftParent(i, j)) in gp
    ensures RightParent(i, j)[0] != 0 ==> Insert(others[n], d, RightParent(i, j)) in gp
  {
  }

  /** On the grid of admissible indices, every such key exists. */
  lemma LevelKeys(keys: set<seq<int>>, dim: nat, level: nat, d: nat, i: int, j: int, others: seq<seq<int>>)
    requires dim >= 2 && d < dim && 1 <= i <= level && ValidPair(i, j)
    requires forall k :: Admissible(k, dim, level) ==> k in keys
    requires others == GeneratePointsRec(dim - 1, level - i + 1, 1)
    ensures PositionKeys(keys, others, d, i, j)
  {
    NodesAdmissible(dim, level, i);
    forall n | 0 <= n < |others|
      ensures 2 * d <= |others[n]| && Insert(others[n], d, [i, j]) in keys
      ensures LeftParent(i, j)[0] != 0 ==> Insert(others[n], d, LeftParent(i, j)) in keys
      ensures RightParent(i, j)[0] != 0 ==> Insert(others[n], d, RightParent(i, j)) in keys
    {
      ParentKeys(others[n], i, j, d, dim, level);
    }
  }

  /** No node is walked twice in one pass. */
  lemma LevelNoRepeats(dim: nat, level: nat, i: int)
    requires dim >= 2 && 1 <= i <= level
    ensures NoRepeats(GeneratePointsRec(dim - 1, level - i + 1, 1))
  {
    GenerateDistinct(dim - 1, level - i + 1, 1);
    DistinctNoRepeats(GeneratePointsRec(dim - 1, level - i + 1, 1));
  }

  /** Every element of `s` occurs for the first time where it stands. */
  ghost predicate NoRepeats(s: seq<seq<int>>)
  {
    forall n :: 0 <= n < |s| ==> s[n] !in s[..n]
  }

  lemma DistinctNoRepeats(s: seq<seq<int>>)
    requires Distinct(s)
    ensures NoRepeats(s)
  {
  }

  /** The odd positions below `2^i + 1` are the positions of level `i`, and the loop over them stops at `2^i + 1`. */
  lemma OddBelow(i: int, j: int)
    requires 1 <= i && j % 2 == 1 && 1 <= j < Pow2(i) + 1
    ensures ValidPair(i, j) && j + 2 <= Pow2(i) + 1 && (j + 2) % 2 == 1
  {
  }

  /** What the pass over level `i` relies on: its nodes, each once, cover the points of that level, and every key it touches exists. */
  ghost predicate LevelReady(keys: set<seq<int>>, dim: nat, level: nat, d: nat, i: int)
    requires dim >= 2 && 1 <= i <= level
  {
    var others := GeneratePointsRec(dim - 1, level - i + 1, 1);
    NoRepeats(others) && NodesOf(keys, d, i, others) &&
    forall j :: ValidPair(i, j) ==> PositionKeys(keys, others, d, i, j)
  }

  /** On the grid of admissible indices every level of every pass is ready. */
  lemma AllLevelsReady(keys: set<seq<int>>, dim: nat, level: nat, d: nat)
    requires dim >= 2 && d < dim
    requires forall k :: k in keys <==> Admissible(k, dim, level)
    ensures forall i :: 1 <= i <= level ==> LevelReady(keys, dim, level, d, i)
  {
    forall i | 1 <= i <= level ensures LevelReady(keys, dim, level, d, i) {
      var others := GeneratePointsRec(dim - 1, level - i + 1, 1);
      LevelSetup(keys, dim, level, d, i, others);
      forall j | ValidPair(i, j) ensures PositionKeys(keys, others, d, i, j) {
        LevelKeys(keys, dim, level, d, i, j, others);
      }
    }
  }

  /**
   * The pass over dimension `d` has reached level `i`, position `j` and the
   * `n`-th node of `others`; `y` comes before that point in the order of
   * the loops (higher levels first, then smaller positions, then the nodes).
   */
  ghost predicate Processed(y: seq<int>, d: nat, i: int, j: int, others: seq<seq<int>>, n: nat)
    requires 2 * d + 2 <= |y| && n <= |others|
  {
    y[2 * d] > i || (y[2 * d] == i && (y[2 * d + 1] < j || (y[2 * d + 1] == j && Remove(y, d) in others[..n])))
  }

  /** Every point already processed holds its new value, every other point its value before the pass. */
  ghost predicate PassState(gp: Points, m0: Values, d: nat, i: int, j: int, others: seq<seq<int>>, n: nat)
    requires n <= |others|
  {
    forall y :: y in gp ==>
      2 * d + 2 <= |y| && y in m0 &&
      gp[y].hv == (if Processed(y, d, i, j, others, n) then HierarchizeDim(m0, d)[y] else m0[y])
  }

  /** Before the pass nothing is processed: every level is at most `level` and every position at least 1. */
  lemma PassStart(gp: Points, level: nat, d: nat)
    requires Layout(gp.Keys, level, d)
    ensures PassState(gp, HvMap(gp), d, level, 1, [], 0)
  {
  }

  /** With no node taken yet, which list of nodes is being walked does not matter. */
  lemma PassEnter(gp: Points, m0: Values, d: nat, i: int, j: int, a: seq<seq<int>>, b: seq<seq<int>>)
    requires PassState(gp, m0, d, i, j, a, 0)
    ensures PassState(gp, m0, d, i, j, b, 0)
  {
    forall y | y in gp ensures Processed(y, d, i, j, a, 0) == Processed(y, d, i, j, b, 0) {
      assert a[..0] == [] == b[..0];
    }
  }

  /**
   * One call of `nodal_2_hier_1d` processes one more point: its parents have
   * lower levels, so they still hold their values from before the pass.
   */
  lemma PassStep(before: Points, m0: Values, d: nat, i: int, j: int, others: seq<seq<int>>, n: nat)
    requires 1 <= i
    requires n < |others| && NoRepeats(others) && 2 * d <= |others[n]|
    requires PassState(before, m0, d, i, j, others, n)
    requires Insert(others[n], d, [i, j]) in before
    requires LeftParent(i, j)[0] < i && RightParent(i, j)[0] < i
    requires LeftParent(i, j)[0] != 0 ==> Insert(others[n], d, LeftParent(i, j)) in before
    requires RightParent(i, j)[0] != 0 ==> Insert(others[n], d, RightParent(i, j)) in before
    ensures var x := Insert(others[n], d, [i, j]);
      PassState(before[x := before[x].(hv := HierarchizeValue(HvMap(before), x, d))], m0, d, i, j, others, n + 1)
  {
    var node := others[n];
    var x := Insert(node, d, [i, j]);
    var after := before[x := before[x].(hv := HierarchizeValue(HvMap(before), x, d))];
    StepValue(before, m0, d, i, j, others, n);
    forall y | y in after
      ensures 2 * d + 2 <= |y| && y in m0
      ensures after[y].hv == (if Processed(y, d, i, j, others, n + 1) then HierarchizeDim(m0, d)[y] else m0[y])
    {
      if y != x {
        StepOther(y, d, i, j, others, n);
      }
    }
  }

  /** The point the step updates gets exactly its value under the simultaneous update. */
  lemma StepValue(before: Points, m0: Values, d: nat, i: int, j: int, others: seq<seq<int>>, n: nat)
    requires 1 <= i
    requires n < |others| && NoRepeats(others) && 2 * d <= |others[n]|
    requires PassState(before, m0, d, i, j, others, n)
    requires Insert(others[n], d, [i, j]) in before
    requires LeftParent(i, j)[0] < i && RightParent(i, j)[0] < i
    requires LeftParent(i, j)[0] != 0 ==> Insert(others[n], d, LeftParent(i, j)) in before
    requires RightParent(i, j)[0] != 0 ==> Insert(others[n], d, RightParent(i, j)) in before
    ensures var x := Insert(others[n], d, [i, j]);
      x in m0 && HasLevel(x, d) && !Processed(x, d, i, j, others, n) && Processed(x, d, i, j, others, n + 1) &&
      HierarchizeValue(HvMap(before), x, d) == HierarchizeDim(m0, d)[x]
  {
    var node := others[n];
    var x := Insert(node, d, [i, j]);
    assert others[..n + 1] == others[..n] + [node];
    RemoveInsert(node, d, [i, j]);
    InsertAt(node, d, i, j);
    assert node !in others[..n];
    ParentKeyIsInsert(node, d, i, j);
    var lp, rp := LeftParent(i, j), RightParent(i, j);
    assert lp == [lp[0], lp[1]] && rp == [rp[0], rp[1]];
    InsertAt(node, d, lp[0], lp[1]);
    InsertAt(node, d, rp[0], rp[1]);
    var lk, rk := LeftKey(x, d), RightKey(x, d);
    if lk[2 * d] != 0 {
      assert !Processed(lk, d, i, j, others, n);
    }
    if rk[2 * d] != 0 {
      assert !Processed(rk, d, i, j, others, n);
    }
    HierarchizeValueAgree(HvMap(before), m0, x, d);
  }

  /** Any other point is processed after the step exactly when it was before. */
  lemma StepOther(y: seq<int>, d: nat, i: int, j: int, others: seq<seq<int>>, n: nat)
    requires n < |others| && 2 * d <= |others[n]| && 2 * d + 2 <= |y|
    requires y != Insert(others[n], d, [i, j])
    ensures Processed(y, d, i, j, others, n + 1) == Processed(y, d, i, j, others, n)
  {
    assert others[..n + 1] == others[..n] + [others[n]];
    if Processed(y, d, i, j, others, n + 1) && !Processed(y, d, i, j, others, n) {
      InsertRemove(y, d);
      assert false;
    }
  }

  /** After the last node, the next odd position starts: nothing lies between `j` and `j + 2`. */
  lemma PassNextPosition(gp: Points, m0: Values, level: nat, d: nat, i: int, j: int, others: seq<seq<int>>)
    requires j % 2 == 1
    requires Layout(gp.Keys, level, d) && NodesOf(gp.Keys, d, i, others)
    requires PassState(gp, m0, d, i, j, others, |others|)
    ensures PassState(gp, m0, d, i, j + 2, others, 0)
  {
    assert others[..|others|] == others;
    forall y | y in gp
      ensures Processed(y, d, i, j, others, |others|) == Processed(y, d, i, j + 2, others, 0)
    {
    }
  }

  /** After the last position of level `i`, the pass moves to level `i − 1`. */
  lemma PassNextLevel(gp: Points, m0: Values, level: nat, d: nat, i: int, others: seq<seq<int>>)
    requires 1 <= i && Layout(gp.Keys, level, d)
    requires PassState(gp, m0, d, i, Pow2(i) + 1, others, 0)
    ensures PassState(gp, m0, d, i - 1, 1, [], 0)
  {
    forall y | y in gp
      ensures Processed(y, d, i, Pow2(i) + 1, others, 0) == Processed(y, d, i - 1, 1, [], 0)
    {
      ProcessedAtTop(y, d, i, others);
    }
  }

  lemma ProcessedAtTop(y: seq<int>, d: nat, i: int, others: seq<seq<int>>)
    requires 1 <= i && 2 * d + 2 <= |y| && ValidPair(y[2 * d], y[2 * d + 1])
    ensures Processed(y, d, i, Pow2(i) + 1, others, 0) == Processed(y, d, i - 1, 1, [], 0)
  {
    assert y[2 * d] == i ==> y[2 * d + 1] < Pow2(i);
  }

  /** Once level 1 is done every point has its new value. */
  lemma PassEnd(gp: Points, m0: Values, level: nat, d: nat)
    requires Layout(gp.Keys, level, d)
    requires m0.Keys == gp.Keys
    requires PassState(gp, m0, d, 0, 1, [], 0)
    ensures HvMap(gp) == HierarchizeDim(m0, d)
  {
    var h, m := HierarchizeDim(m0, d), HvMap(gp);
    forall y | y in m ensures m[y] == h[y] {
      ProcessedAtEnd(y, d);
    }
    MapsEqual(m, h);
  }

  /** Two maps with the same keys and the same value under each key are equal. */
  lemma MapsEqual(m: Values, h: Values)
    requires m.Keys == h.Keys
    requires forall y :: y in m ==> m[y] == h[y]
    ensures m == h
  {
  }

  /** Once the pass is past level 1, every point of positive level is processed. */
  lemma ProcessedAtEnd(y: seq<int>, d: nat)
    requires 2 * d + 2 <= |y| && ValidPair(y[2 * d], y[2 * d + 1])
    ensures Processed(y, d, 0, 1, [], 0)
  {
  }

  /** The generated indices are exactly the admissible ones, each with one pair per dimension. */
  lemma IndicesAdmissible(dim: nat, level: nat)
    requires dim >= 1 && level >= 1
    ensures forall k :: k in GeneratePointsRec(dim, level, 1) <==> Admissible(k, dim, level)
    ensures forall k :: k in GeneratePointsRec(dim, level, 1) ==> |k| == 2 * dim
  {
    forall k ensures k in GeneratePointsRec(dim, level, 1) <==> Admissible(k, dim, level) {
      GenerateMember(dim, level, 1, k);
    }
    forall k | k in GeneratePointsRec(dim, level, 1) ensures |k| == 2 * dim {
      WellFormedLength(k, dim);
    }
  }

  /** One more element of a list, as a set. */
  lemma PrefixStep(s: seq<seq<int>>, n: nat)
    requires n < |s|
    ensures forall k :: k in s[..n + 1] <==> k in s[..n] || k == s[n]
  {
    assert s[..n + 1] == s[..n] + [s[n]];
  }

  lemma PrefixAll(s: seq<seq<int>>)
    ensures s[..|s|] == s
  {
  }

  // ---------------------------------------------------------------------
  // the grid
  // ---------------------------------------------------------------------

  class SparseGrid {
    /** Number of dimensions. */
    const dim: nat
    /** Sparse-grid level. */
    const level: nat
    /** The points, by multi-index (`g_p`). */
    var gp: Points
    /** The generated multi-indices, in generation order. */
    var indices: seq<seq<int>>
    /** One interval per dimension. */
    var domain: seq<Interval>
    /** The accumulator of `eval_funct`. */
    var value: real
    /** Per dimension and level, the active basis function at the point being evaluated. */
    var evalPerDim: seq<seq<ActiveBasis>>
    /** The level vector of the subspace the traversal is in (`h_space`). */
    var hSpace: seq<int>

    /** A grid with no points over `(0, 1)^dim`. */
    constructor(dim: nat := 1, level: nat := 1)
      ensures this.dim == dim && this.level == level
      ensures gp == map[] && indices == [] && domain == UnitDomain(dim)
      ensures value == 0.0 && evalPerDim == [] && hSpace == []
    {
      this.dim := dim;
      this.level := level;
      gp := map[];
      indices := [];
      domain := UnitDomain(dim);
      value := 0.0;
      evalPerDim := [];
      hSpace := [];
    }


    /**
     * The grid after `generate_points`: the indices are exactly the
     * admissible ones, and there is one point for each of them.
     */
    ghost predicate Valid()
      reads this
    {
      dim >= 1 && level >= 1 &&
      (forall k :: k in indices <==> Admissible(k, dim, level)) &&
      (forall k :: k in gp <==> k in indices)
    }

    /**
     * `generate_points`: the admissible indices, in generation order, each
     * with a fresh point placed in the domain; points already present under
     * other keys stay.
     */
    method GeneratePoints()
      requires dim >= 1 && level >= 1 && |domain| >= dim
      modifies this`indices, this`gp
      ensures indices == GeneratePointsRec(dim, level, 1)
      ensures forall k :: k in indices <==> Admissible(k, dim, level)
      ensures forall k :: k in gp <==> k in old(gp) || k in indices
      ensures forall k :: k in indices ==> |k| == 2 * dim && gp[k] == NewGridPoint(Some(k), Some(domain))
      ensures forall k :: k in old(gp) && k !in indices ==> gp[k] == old(gp)[k]
      ensures (forall k :: k in old(gp) ==> Admissible(k, dim, level)) ==> Valid()
    {
      indices := GeneratePointsRec(dim, level, 1);
      IndicesAdmissible(dim, level);
      PlacePoints();
    }

    /** The loop of `generate_points`: a fresh point for each index, in order. */
    method PlacePoints()
      requires forall k :: k in indices ==> |k| == 2 * dim
      requires |domain| >= dim
      modifies this`gp
      ensures forall k :: k in gp <==> k in old(gp) || k in indices
      ensures forall k :: k in indices ==> gp[k] == NewGridPoint(Some(k), Some(domain))
      ensures forall k :: k in old(gp) && k !in indices ==> gp[k] == old(gp)[k]
    {
      ghost var g0 := gp;
      for n := 0 to |indices|
        invariant forall k :: k in gp <==> k in g0 || k in indices[..n]
        invariant forall k :: k in indices[..n] ==> gp[k] == NewGridPoint(Some(k), Some(domain))
        invariant forall k :: k in g0 && k !in indices[..n] ==> gp[k] == g0[k]
      {
        var key := indices[n];
        assert key in indices;
        gp := gp[key := NewGridPoint(Some(key), Some(domain))];
        PrefixStep(indices, n);
      }
      PrefixAll(indices);
    }

    /**
     * `nodal_2_hier_1d(node, i, j, d)`: the point `[i, j]` spliced into
     * `node` at dimension `d` loses half the hierarchical value of each of
     * its two parents that is not on the boundary. No other point changes.
     */
    method Nodal2Hier1D(node: seq<int>, i: int, j: int, d: nat)
      requires 2 * d <= |node|
      requires Insert(node, d, [i, j]) in gp
      requires LeftParent(i, j)[0] != 0 ==> Insert(node, d, LeftParent(i, j)) in gp
      requires RightParent(i, j)[0] != 0 ==> Insert(node, d, RightParent(i, j)) in gp
      modifies this`gp
      ensures var k := Insert(node, d, [i, j]);
        gp == old(gp)[k := old(gp)[k].(hv := HierarchizeValue(HvMap(old(gp)), k, d))]
    {
      var left := WalkToAncestor(i - 1, j / 2);
      var right := WalkToAncestor(i - 1, j / 2 + 1);
      var index := SpliceBranches(node, d, [i, j]);
      left := SpliceBranches(node, d, left);
      right := SpliceBranches(node, d, right);
      SpliceAt(node, d, [i, j]);
      SpliceAt(node, d, LeftParent(i, j));
      SpliceAt(node, d, RightParent(i, j));
      ParentKeyIsInsert(node, d, i, j);
      var lp, rp := LeftParent(i, j), RightParent(i, j);
      assert lp == [lp[0], lp[1]] && rp == [rp[0], rp[1]];
      InsertAt(node, d, lp[0], lp[1]);
      InsertAt(node, d, rp[0], rp[1]);
      ghost var m := HvMap(gp);
      var g := gp[index];
      if left[2 * d] == 0 {
        if right[2 * d] != 0 {
          g := g.(hv := g.hv - 0.5 * gp[right].hv);
        }
      } else if right[2 * d] == 0 {
        g := g.(hv := g.hv - 0.5 * gp[left].hv);
      } else {
        g := g.(hv := g.hv - 0.5 * (gp[left].hv + gp[right].hv));
      }
      assert g.hv == HierarchizeValue(m, index, d);
      gp := gp[index := g];
    }

    /**
     * The pass of `nodal_2_hier` over one dimension `d`: levels from
     * `level` down to 1 (`HierarchizeLevel` is the body of that loop). Its
     * result is the simultaneous update `HierarchizeDim` of every point.
     */
    method HierarchizeDimension(d: nat)
      requires Valid() && dim >= 2 && d < dim
      modifies this`gp
      ensures Valid() && SameNodes(gp, old(gp))
      ensures HvMap(gp) == HierarchizeDim(HvMap(old(gp)), d)
    {
      ghost var m0, g0 := HvMap(gp), gp;
      AdmissibleLayout(g0.Keys, dim, level, d);
      AllLevelsReady(g0.Keys, dim, level, d);
      PassStart(g0, level, d);
      var i := level;
      while i > 0
        invariant 0 <= i <= level
        invariant SameNodes(gp, g0)
        invariant PassState(gp, m0, d, i, 1, [], 0)
      {
        HierarchizeLevel(d, i, m0, g0);
        i := i - 1;
      }
      PassEnd(gp, m0, level, d);
      assert indices == old(indices);
    }

    /**
     * Level `i` of the pass over dimension `d`: the nodes of the other
     * dimensions under the budget `level − i + 1`, and the odd positions
     * `1, 3, …, 2^i − 1` (`HierarchizePosition` is the body of that loop).
     */
    method HierarchizeLevel(d: nat, i: nat, ghost m0: Values, ghost g0: Points)
      requires dim >= 2 && d < dim && 1 <= i <= level
      requires LevelReady(g0.Keys, dim, level, d, i)
      requires SameNodes(gp, g0) && Layout(g0.Keys, level, d)
      requires PassState(gp, m0, d, i, 1, [], 0)
      modifies this`gp
      ensures SameNodes(gp, g0)
      ensures PassState(gp, m0, d, i - 1, 1, [], 0)
    {
      var others := GeneratePointsRec(dim - 1, level - i + 1, 1);
      PassEnter(gp, m0, d, i, 1, [], others);
      var j := 1;
      while j < Pow2(i) + 1
        invariant j % 2 == 1 && 1 <= j <= Pow2(i) + 1
        invariant SameNodes(gp, g0)
        invariant PassState(gp, m0, d, i, j, others, 0)
      {
        OddBelow(i, j);
        HierarchizePosition(d, i, j, others, m0, g0);
        PassNextPosition(gp, m0, level, d, i, j, others);
        j := j + 2;
      }
      PassNextLevel(gp, m0, level, d, i, others);
    }

    /** Position `j` of level `i`: `nodal_2_hier_1d` on every node, in order. */
    method HierarchizePosition(d: nat, i: nat, j: int, others: seq<seq<int>>, ghost m0: Values, ghost g0: Points)
      requires 1 <= i && ValidPair(i, j)
      requires SameNodes(gp, g0) && NoRepeats(others) && PositionKeys(g0.Keys, others, d, i, j)
      requires PassState(gp, m0, d, i, j, others, 0)
      modifies this`gp
      ensures SameNodes(gp, g0)
      ensures PassState(gp, m0, d, i, j, others, |others|)
    {
      ParentsValid(i, j);
      for n := 0 to |others|
        invariant SameNodes(gp, g0)
        invariant PassState(gp, m0, d, i, j, others, n)
      {
        ghost var before := gp;
        PositionKeysAt(gp, g0, others, d, i, j, n);
        Nodal2Hier1D(others[n], i, j, d);
        KeepNodes(before, g0, Insert(others[n], d, [i, j]), HierarchizeValue(HvMap(before), Insert(others[n], d, [i, j]), d));
        PassStep(before, m0, d, i, j, others, n);
      }
    }

    /** The first loop of `nodal_2_hier`: every point's `hv` becomes its `fv`. */
    method CopyNodalValues()
      requires forall k :: k in gp <==> k in indices
      modifies this`gp
      ensures SameNodes(gp, old(gp))
      ensures HvMap(gp) == FvMap(old(gp))
    {
      ghost var g0 := gp;
      for n := 0 to |indices|
        invariant SameNodes(gp, g0)
        invariant forall k :: k in gp ==> gp[k].hv == (if k in indices[..n] then gp[k].fv else g0[k].hv)
      {
        var key := indices[n];
        PrefixStep(indices, n);
        assert key in indices;
        gp := gp[key := gp[key].(hv := gp[key].fv)];
      }
      PrefixAll(indices);
    }

    /**
     * `nodal_2_hier`: every point's `hv` starts as its `fv`, and then each
     * dimension in turn is hierarchized. The result is `HierarchizeUpTo` of
     * the nodal values, from which dehierarchizing gives them back.
     */
    method Nodal2Hier()
      requires Valid() && dim >= 2
      modifies this`gp
      ensures Valid() && SameNodes(gp, old(gp))
      ensures HvMap(gp) == HierarchizeUpTo(FvMap(gp), dim)
      ensures DehierarchizeDownFrom(HvMap(gp), dim) == FvMap(gp)
    {
      ghost var g0 := gp;
      CopyNodalValues();
      assert HvMap(gp) == FvMap(g0);
      for d := 0 to dim
        invariant Valid() && SameNodes(gp, g0)
        invariant HvMap(gp) == HierarchizeUpTo(FvMap(g0), d)
      {
        ghost var h := HierarchizeUpTo(FvMap(g0), d);
        HierarchizeDimension(d);
        assert HierarchizeUpTo(FvMap(g0), d + 1) == HierarchizeDim(h, d);
      }
      assert FvMap(gp) == FvMap(g0);
      forall d | 0 <= d < dim ensures ParentClosed(FvMap(g0).Keys, d) {
        AdmissibleParentClosed(FvMap(g0).Keys, dim, level, d);
      }
      RecoverNodal(FvMap(g0), dim);
    }

    /**
     * `eval_action`: the subspace `hSpace` adds the hierarchical value of
     * the point its active entries pick times the product of their hats.
     */
    method EvalAction()
      requires dim >= 1 && |hSpace| == dim && Indexes(evalPerDim, hSpace)
      requires KeyUpTo(evalPerDim, hSpace, dim) in gp
      modifies this`value
      ensures hSpace == old(hSpace)
      ensures value == old(value) + Term(HvMap(gp), evalPerDim, hSpace)
    {
      var table: seq<seq<ActiveBasis>>, hs: seq<int> := evalPerDim, hSpace;
      var first := table[0][hs[0] - 1];
      var basis, w := first.pair, first.weight;
      assert KeyUpTo(table, hs, 0) == [];
      for i := 1 to dim
        invariant basis == KeyUpTo(table, hs, i)
        invariant w == WeightUpTo(table, hs, i)
      {
        var e := table[i][hs[i] - 1];
        assert KeyUpTo(table, hs, i + 1) == basis + e.pair;
        assert WeightUpTo(table, hs, i + 1) == w * e.weight;
        w := w * e.weight;
        basis := basis + e.pair;
      }
      TermIs(HvMap(gp), table, hs, basis, gp[basis].hv, w);
      value := value + gp[basis].hv * w;
    }

    /**
     * `loop_hier_spaces_rec(n, budget)`: every continuation of `hSpace` by
     * `n` more levels under the budget, in traversal order, each through
     * `eval_action`; `hSpace` is restored on return. The bodies of its two
     * loops are `Descend` and `Act`.
     */
    method LoopHierSpacesRec(n: nat, budget: int)
      requires n >= 1 && dim >= 1
      requires Covered(gp.Keys, evalPerDim, hSpace, LevelVectors(n, budget, 1), dim)
      modifies this`value, this`hSpace
      ensures hSpace == old(hSpace)
      ensures value == old(value) + SumOver(HvMap(gp), evalPerDim, hSpace, LevelVectors(n, budget, 1))
      decreases n, 1
    {
      ghost var hs := hSpace;
      ghost var hv := HvMap(gp);
      var i := 1;
      if n > 1 {
        while i <= budget
          invariant i >= 1 && hSpace == hs
          invariant Covered(gp.Keys, evalPerDim, hs, LevelVectors(n, budget, i), dim)
          invariant old(value) + SumOver(hv, evalPerDim, hs, LevelVectors(n, budget, 1)) ==
            value + SumOver(hv, evalPerDim, hs, LevelVectors(n, budget, i))
          decreases budget - i
        {
          TraversalStepInner(gp.Keys, hv, evalPerDim, hs, n, budget, i, dim);
          Descend(n, budget, i);
          i := i + 1;
        }
      } else {
        while i <= budget
          invariant i >= 1 && hSpace == hs
          invariant Covered(gp.Keys, evalPerDim, hs, LevelVectors(n, budget, i), dim)
          invariant old(value) + SumOver(hv, evalPerDim, hs, LevelVectors(n, budget, 1)) ==
            value + SumOver(hv, evalPerDim, hs, LevelVectors(n, budget, i))
          decreases budget - i
        {
          TraversalStepLast(gp.Keys, hv, evalPerDim, hs, budget, i, dim);
          Act(i);
          i := i + 1;
        }
      }
      TraversalDone(n, budget, i);
    }

    /** One iteration of the recursive loop: push level `i`, traverse the remaining dimensions, pop. */
    method Descend(n: nat, budget: int, i: int)
      requires n > 1 && dim >= 1
      requires Covered(gp.Keys, evalPerDim, hSpace + [i], LevelVectors(n - 1, budget - (i - 1), 1), dim)
      modifies this`value, this`hSpace
      ensures hSpace == old(hSpace)
      ensures value == old(value) + SumOver(HvMap(gp), evalPerDim, hSpace + [i], LevelVectors(n - 1, budget - (i - 1), 1))
      decreases n, 0
    {
      hSpace := hSpace + [i];
      LoopHierSpacesRec(n - 1, budget - (i - 1));
      hSpace := hSpace[..|hSpace| - 1];
    }

    /** One iteration of the last loop: push level `i`, run `eval_action`, pop. */
    method Act(i: int)
      requires dim >= 1
      requires Covered(gp.Keys, evalPerDim, hSpace, [[i]], dim)
      modifies this`value, this`hSpace
      ensures hSpace == old(hSpace)
      ensures value == old(value) + Term(HvMap(gp), evalPerDim, hSpace + [i])
    {
      assert [i] in [[i]];
      hSpace := hSpace + [i];
      EvalAction();
      hSpace := hSpace[..|hSpace| - 1];
    }

    /**
     * `loop_hier_spaces`: the first level `i` from 1 to `level`, then every
     * continuation under the budget `level − (i − 1)`. The value grows by
     * the sum over all level vectors of the sparse grid, in traversal order.
     */
    method LoopHierSpaces()
      requires dim >= 2
      requires Covered(gp.Keys, evalPerDim, [], LevelVectors(dim, level, 1), dim)
      modifies this`value, this`hSpace
      ensures value == old(value) + SumOver(HvMap(gp), evalPerDim, [], LevelVectors(dim, level, 1))
      ensures level >= 1 ==> hSpace == [level]
    {
      ghost var hv, table := HvMap(gp), evalPerDim;
      ghost var total := value + SumOver(hv, table, [], LevelVectors(dim, level, 1));
      var i := 1;
      while i <= level
        invariant 1 <= i <= level + 1
        invariant i > 1 ==> hSpace == [i - 1]
        invariant total == value + SumOver(hv, table, [], LevelVectors(dim, level, i))
      {
        LoopHierSpacesStep(i, hv, table, total);
        i := i + 1;
      }
      TraversalDone(dim, level, i);
    }

    /**
     * One iteration of `loop_hier_spaces`, with its account: what is left
     * to add after it is the sum over the level vectors that start above `i`.
     */
    method LoopHierSpacesStep(i: int, ghost hv: Values, ghost table: seq<seq<ActiveBasis>>, ghost total: real)
      requires dim >= 2 && 1 <= i <= level
      requires Covered(gp.Keys, evalPerDim, [], LevelVectors(dim, level, 1), dim)
      requires hv == HvMap(gp) && table == evalPerDim
      requires total == value + SumOver(hv, table, [], LevelVectors(dim, level, i))
      modifies this`value, this`hSpace
      ensures hSpace == [i]
      ensures total == value + SumOver(hv, table, [], LevelVectors(dim, level, i + 1))
    {
      SumFirst(hv, table, dim, level, i);
      StartAt(i);
    }

    /**
     * The body of the loop of `loop_hier_spaces`: `h_space` becomes `[i]`
     * and the other dimensions are traversed, which adds the level vectors
     * that start with `i`.
     */
    method StartAt(i: int)
      requires dim >= 2 && 1 <= i <= level
      requires Covered(gp.Keys, evalPerDim, [], LevelVectors(dim, level, 1), dim)
      modifies this`value, this`hSpace
      ensures hSpace == [i]
      ensures value == old(value) + SumOver(HvMap(gp), evalPerDim, [i], LevelVectors(dim - 1, level - (i - 1), 1))
    {
      CoveredBlock(gp.Keys, evalPerDim, dim, level, i, dim);
      hSpace := [i];
      LoopHierSpacesRec(dim - 1, level - (i - 1));
    }

    /**
     * `eval_funct(x)`: the table of active basis functions at `x`, then the
     * traversal from a zero value. The result is the interpolant of the
     * hierarchical values at `x`.
     */
    method EvalFunct(x: seq<real>) returns (r: real)
      requires Valid() && dim >= 2 && InDomain(x, domain, dim)
      modifies this`value, this`evalPerDim, this`hSpace
      ensures evalPerDim == ActiveTable(x, domain, dim, level) && hSpace == [level]
      ensures r == value && r == Interpolant(HvMap(gp), evalPerDim, dim, level)
    {
      value := 0.0;
      evalPerDim := [];
      for i := 0 to dim
        invariant value == 0.0
        invariant evalPerDim == ActiveTable(x, domain, i, level)
      {
        FillRow(x, i);
      }
      assert forall k :: Admissible(k, dim, level) ==> k in gp;
      TableCovered(gp.Keys, x, domain, dim, level);
      LoopHierSpaces();
      r := value;
    }

    /**
     * Once the values are hierarchical (`nodal_2_hier`), the interpolant
     * that `eval_funct` computes, taken at the position of any grid point,
     * is that point's nodal value: the grid interpolates the function it
     * was given.
     */
    lemma InterpolatesAtPoints(k: seq<int>)
      requires Valid() && k in gp && HvMap(gp) == HierarchizeUpTo(FvMap(gp), dim)
      requires |domain| >= dim && forall i :: 0 <= i < dim ==> domain[i].lo < domain[i].hi
      ensures |k| == 2 * dim && InDomain(PointPosition(k, Some(domain)), domain, dim)
      ensures Interpolant(HvMap(gp), ActiveTable(PointPosition(k, Some(domain)), domain, dim, level), dim, level) == gp[k].fv
    {
      InterpolatesAtGridPoints(FvMap(gp), domain, dim, level, k);
    }

    /**
     * One iteration of the outer loop of `eval_funct`: row `i` of the table,
     * level by level, with the position `ceil(pos · 2^(j−1)) · 2 − 1`
     * (`1` in place of `−1`) and its hat at `x[i]`.
     */
    method FillRow(x: seq<real>, i: nat)
      requires i < |x| && i < |domain| && domain[i].hi != domain[i].lo
      requires forall k :: 0 <= k < i ==> domain[k].hi != domain[k].lo
      requires evalPerDim == ActiveTable(x, domain, i, level)
      modifies this`evalPerDim
      ensures evalPerDim == ActiveTable(x, domain, i + 1, level)
    {
      ghost var done := evalPerDim;
      evalPerDim := evalPerDim + [[]];
      for j := 1 to level + 1
        invariant evalPerDim == done + [ActiveRow(x[i], domain[i], j - 1)]
      {
        var pos := (x[i] - domain[i].lo) / (domain[i].hi - domain[i].lo);
        assert pos == Normalize(x[i], domain[i]);
        var basis := Ceil(pos * Pow2Real(j - 1)) * 2 - 1;
        ActivePositionSteps(pos, j);
        if basis == -1 {
          basis := 1;
        }
        assert basis == ActivePosition(pos, j);
        var e := ActiveBasis([j, basis], EvalBasis1D(x[i], j, basis, Some(domain[i])));
        ActiveRowStep(x[i], domain[i], j - 1);
        evalPerDim := evalPerDim[i := evalPerDim[i] + [e]];
      }
      ActiveTableStep(x, domain, i, level);
    }
  }
}
