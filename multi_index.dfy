/**
 * The interleaved multi-index `[l_1, p_1, …, l_d, p_d]` that keys the grid
 * (sparse_grid/grid.py): what makes one well formed, the admissibility
 * condition `Σ l_i ≤ level + dim − 1` of a regular sparse grid, and the
 * insertion and removal of one dimension's pair at offset `2·d`.
 */
module MultiIndex {
  import opened Utils

  /** A boundary-free basis pair: level ≥ 1, odd position in `[1, 2^l − 1]`. */
  predicate ValidPair(l: int, p: int)
  {
    l >= 1 && p % 2 == 1 && 1 <= p < Pow2(l)
  }

  /** The level of dimension `d`. */
  function LevelAt(idx: seq<int>, d: nat): int
    requires 2 * d + 1 < |idx|
  {
    idx[2 * d]
  }

  /** The position of dimension `d`. */
  function PositionAt(idx: seq<int>, d: nat): int
    requires 2 * d + 1 < |idx|
  {
    idx[2 * d + 1]
  }

  /** `idx` holds `dim` valid pairs and nothing else. */
  predicate WellFormed(idx: seq<int>, dim: nat)
  {
    if dim == 0 then idx == []
    else |idx| >= 2 && ValidPair(idx[0], idx[1]) && WellFormed(idx[2..], dim - 1)
  }

  /** The sum of the levels, `Σ l_i`. */
  function LevelSum(idx: seq<int>): int
  {
    if |idx| < 2 then 0 else idx[0] + LevelSum(idx[2..])
  }

  /** The admissible multi-indices of the regular sparse grid of dimension `dim` and level `level`. */
  predicate Admissible(idx: seq<int>, dim: nat, level: int)
  {
    WellFormed(idx, dim) && LevelSum(idx) <= level + dim - 1
  }

  lemma {:induction false} WellFormedLength(idx: seq<int>, dim: nat)
    requires WellFormed(idx, dim)
    ensures |idx| == 2 * dim
  {
    if dim > 0 {
      WellFormedLength(idx[2..], dim - 1);
    }
  }

  /** Well-formedness dimension by dimension, both directions. */
  lemma {:induction false} WellFormedAt(idx: seq<int>, dim: nat)
    ensures WellFormed(idx, dim) <==>
      |idx| == 2 * dim && forall d :: 0 <= d < dim ==> ValidPair(LevelAt(idx, d), PositionAt(idx, d))
  {
    if dim > 0 && |idx| >= 2 {
      var tail := idx[2..];
      WellFormedAt(tail, dim - 1);
      if |idx| == 2 * dim {
        forall d | 1 <= d < dim
          ensures LevelAt(idx, d) == LevelAt(tail, d - 1) && PositionAt(idx, d) == PositionAt(tail, d - 1)
        {
        }
        assert LevelAt(idx, 0) == idx[0] && PositionAt(idx, 0) == idx[1];
        if forall d :: 0 <= d < dim ==> ValidPair(LevelAt(idx, d), PositionAt(idx, d)) {
          forall d | 0 <= d < dim - 1 ensures ValidPair(LevelAt(tail, d), PositionAt(tail, d)) {
            assert ValidPair(LevelAt(idx, d + 1), PositionAt(idx, d + 1));
          }
        }
        if WellFormed(idx, dim) {
          forall d | 0 <= d < dim ensures ValidPair(LevelAt(idx, d), PositionAt(idx, d)) {
            if d > 0 {
              assert ValidPair(LevelAt(tail, d - 1), PositionAt(tail, d - 1));
            }
          }
        }
      }
    }
  }

  /** Every level of a well-formed index is at least 1, so the levels add up to at least `dim`. */
  lemma {:induction false} LevelSumAtLeastDim(idx: seq<int>, dim: nat)
    requires WellFormed(idx, dim)
    ensures LevelSum(idx) >= dim
  {
    if dim > 0 {
      LevelSumAtLeastDim(idx[2..], dim - 1);
    }
  }

  // ---------------------------------------------------------------------
  // one dimension's pair, put in and taken out at offset 2·d
  // ---------------------------------------------------------------------

  /** `node[0:2d] ++ pair ++ node[2d:]`: the pair becomes dimension `d`. */
  function Insert(node: seq<int>, d: nat, pair: seq<int>): (r: seq<int>)
    requires 2 * d <= |node|
    ensures |r| == |node| + |pair|
  {
    node[..2 * d] + pair + node[2 * d..]
  }

  /** The index without dimension `d`. */
  function Remove(idx: seq<int>, d: nat): (r: seq<int>)
    requires 2 * d + 2 <= |idx|
    ensures |r| == |idx| - 2
  {
    idx[..2 * d] + idx[2 * d + 2..]
  }

  /** Taking out the pair just put in gives back the node. */
  lemma RemoveInsert(node: seq<int>, d: nat, pair: seq<int>)
    requires 2 * d <= |node| && |pair| == 2
    ensures Remove(Insert(node, d, pair), d) == node
  {
    var x := Insert(node, d, pair);
    assert x[..2 * d] == node[..2 * d];
    assert x[2 * d + 2..] == node[2 * d..];
  }

  /** Putting back the pair that was taken out gives back the index. */
  lemma InsertRemove(idx: seq<int>, d: nat)
    requires 2 * d + 2 <= |idx|
    ensures Insert(Remove(idx, d), d, [idx[2 * d], idx[2 * d + 1]]) == idx
  {
    var node := Remove(idx, d);
    assert node[..2 * d] == idx[..2 * d];
    assert node[2 * d..] == idx[2 * d + 2..];
  }

  /** The inserted pair sits at offset `2·d`, and the rest of the node around it. */
  lemma InsertAt(node: seq<int>, d: nat, l: int, p: int)
    requires 2 * d <= |node|
    ensures LevelAt(Insert(node, d, [l, p]), d) == l
    ensures PositionAt(Insert(node, d, [l, p]), d) == p
  {
  }

  /** Replacing the pair of dimension `d` in place is removing it and inserting the new one. */
  lemma ReplaceIsInsert(idx: seq<int>, d: nat, l: int, p: int)
    requires 2 * d + 2 <= |idx|
    ensures idx[2 * d := l][2 * d + 1 := p] == Insert(Remove(idx, d), d, [l, p])
  {
  }

  /** Inserting at the end of a `2·d`-long head puts the pair between head and tail. */
  lemma InsertSplit(head: seq<int>, tail: seq<int>, d: nat, pair: seq<int>)
    requires |head| == 2 * d
    ensures Insert(head + tail, d, pair) == head + pair + tail
  {
    assert (head + tail)[..2 * d] == head;
    assert (head + tail)[2 * d..] == tail;
  }

  /** Inserting past the first pair keeps that pair in front. */
  lemma InsertStep(node: seq<int>, d: nat, pair: seq<int>)
    requires 1 <= d && 2 * d <= |node|
    ensures Insert(node, d, pair) == node[..2] + Insert(node[2..], d - 1, pair)
  {
    assert node[..2 * d] == node[..2] + node[2..][..2 * (d - 1)];
    assert node[2 * d..] == node[2..][2 * (d - 1)..];
  }

  /** An inserted valid pair keeps the index well formed, and only a valid pair does. */
  lemma {:induction false} InsertWellFormed(node: seq<int>, dim: nat, d: nat, l: int, p: int)
    requires 1 <= dim && d < dim && 2 * d <= |node|
    ensures WellFormed(Insert(node, d, [l, p]), dim) <==> WellFormed(node, dim - 1) && ValidPair(l, p)
  {
    var x := Insert(node, d, [l, p]);
    if d == 0 {
      assert x == [l, p] + node;
      assert x[2..] == node;
    } else {
      InsertStep(node, d, [l, p]);
      if |node| >= 2 {
        assert x[2..] == Insert(node[2..], d - 1, [l, p]);
        InsertWellFormed(node[2..], dim - 1, d - 1, l, p);
      }
    }
  }

  /** The inserted level adds to the level sum. */
  lemma {:induction false} InsertLevelSum(node: seq<int>, d: nat, l: int, p: int)
    requires 2 * d <= |node| && |node| % 2 == 0
    ensures LevelSum(Insert(node, d, [l, p])) == LevelSum(node) + l
  {
    var x := Insert(node, d, [l, p]);
    if d == 0 {
      assert x == [l, p] + node;
      assert x[2..] == node;
    } else {
      InsertStep(node, d, [l, p]);
      assert x[2..] == Insert(node[2..], d - 1, [l, p]);
      InsertLevelSum(node[2..], d - 1, l, p);
    }
  }

  /** Appending a valid pair adds a dimension and its level. */
  lemma AppendPair(idx: seq<int>, dim: nat, l: int, p: int)
    requires WellFormed(idx, dim) && ValidPair(l, p)
    ensures WellFormed(idx + [l, p], dim + 1) && LevelSum(idx + [l, p]) == LevelSum(idx) + l
  {
    WellFormedLength(idx, dim);
    assert idx + [l, p] == Insert(idx, dim, [l, p]);
    InsertWellFormed(idx, dim + 1, dim, l, p);
    InsertLevelSum(idx, dim, l, p);
  }

  /**
   * An index with `l` inserted at dimension `d` is admissible for `dim`
   * dimensions exactly when the rest is admissible for `dim − 1` dimensions
   * with the budget `level − l + 1`.
   */
  lemma InsertAdmissible(node: seq<int>, dim: nat, level: int, d: nat, l: int, p: int)
    requires 1 <= dim && d < dim && 2 * d <= |node| && |node| % 2 == 0
    ensures Admissible(Insert(node, d, [l, p]), dim, level) <==>
      ValidPair(l, p) && Admissible(node, dim - 1, level - l + 1)
  {
    InsertWellFormed(node, dim, d, l, p);
    InsertLevelSum(node, d, l, p);
  }
}
