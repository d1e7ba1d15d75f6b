/**
 * Generation of the admissible index set (`generate_points_rec`,
 * sparse_grid/grid.py): the level budget is handed out dimension by
 * dimension, and each level's odd positions are combined with the indices
 * of the remaining dimensions through `cross`.
 */
module Generation {
  import opened Utils
  import opened MultiIndex

  /** `basis_cur`: the pairs `[l, 1], [l, 3], …, [l, 2^l − 1]` of one level, in that order. */
  function LevelPositions(l: nat): (r: seq<seq<int>>)
    requires l >= 1
    ensures |r| == Pow2(l - 1)
  {
    seq(Pow2(l - 1), k => [l, 2 * k + 1])
  }

  /** The pairs of one level are exactly the valid pairs of that level. */
  lemma LevelPositionsMember(l: nat, x: seq<int>)
    requires l >= 1
    ensures x in LevelPositions(l) <==> |x| == 2 && x[0] == l && ValidPair(l, x[1])
  {
    var r := LevelPositions(l);
    assert Pow2(l) == 2 * Pow2(l - 1);
    if |x| == 2 && x[0] == l && ValidPair(l, x[1]) {
      var k := (x[1] - 1) / 2;
      assert r[k] == x;
    }
  }

  /**
   * `generate_points_rec(dim, level, cur)`: the indices of `dim` dimensions
   * whose first level is `cur` or more, under the level budget `level`.
   * Python's default `cur_level = None` is the call with `cur = 1`.
   */
  function GeneratePointsRec(dim: nat, level: nat, cur: nat): seq<seq<int>>
    requires dim >= 1 && 1 <= cur <= level
    decreases dim, level - cur, 1
  {
    if cur == level then FirstBlock(dim, level, cur)
    else FirstBlock(dim, level, cur) + GeneratePointsRec(dim, level, cur + 1)
  }

  /** What `GeneratePointsRec(dim, level, cur)` is meant to produce. */
  predicate InGrid(x: seq<int>, dim: nat, level: nat, cur: nat)
  {
    Admissible(x, dim, level) && |x| >= 2 && x[0] >= cur
  }

  /**
   * The generated list holds exactly the admissible indices whose first
   * level is at least `cur`: every level ≥ 1, every position odd in
   * `[1, 2^l − 1]`, and `Σ l_i ≤ level + dim − 1`.
   */
  lemma {:induction false} GenerateMember(dim: nat, level: nat, cur: nat, x: seq<int>)
    requires dim >= 1 && 1 <= cur <= level
    ensures x in GeneratePointsRec(dim, level, cur) <==> InGrid(x, dim, level, cur)
    decreases dim, level - cur, 3
  {
    var head := FirstBlock(dim, level, cur);
    FirstBlockMember(dim, level, cur, x);
    if cur < level {
      var tail := GeneratePointsRec(dim, level, cur + 1);
      GenerateMember(dim, level, cur + 1, x);
      assert x in head + tail <==> x in head || x in tail;
    }
  }

  /**
   * The part of `generate_points_rec(dim, level, cur)` built at level `cur`:
   * `basis_cur` alone in one dimension, otherwise `cross(basis_cur, …)` with
   * the indices of the remaining dimensions under the budget `level − cur + 1`.
   */
  function FirstBlock(dim: nat, level: nat, cur: nat): seq<seq<int>>
    requires dim >= 1 && 1 <= cur <= level
    decreases dim, level - cur, 0
  {
    if dim == 1 then LevelPositions(cur)
    else Cross(LevelPositions(cur), GeneratePointsRec(dim - 1, level - cur + 1, 1))
  }

  /** The first block holds the grid's indices that start at level `cur`, and none starts above `level`. */
  lemma FirstBlockMember(dim: nat, level: nat, cur: nat, x: seq<int>)
    requires dim >= 1 && 1 <= cur <= level
    ensures x in FirstBlock(dim, level, cur) <==> |x| >= 2 && x[0] == cur && InGrid(x, dim, level, cur)
    ensures InGrid(x, dim, level, cur) ==> x[0] <= level
    decreases dim, level - cur, 2
  {
    if dim == 1 {
      LevelMember(level, cur, x);
    } else {
      HeadMember(dim, level, cur, x);
      if InGrid(x, dim, level, cur) {
        LevelSumAtLeastDim(x[2..], dim - 1);
      }
    }
  }

  /** One dimension: the pairs of level `cur` are the admissible ones that start at level `cur`. */
  lemma LevelMember(level: nat, cur: nat, x: seq<int>)
    requires 1 <= cur <= level
    ensures x in LevelPositions(cur) <==> |x| >= 2 && x[0] == cur && InGrid(x, 1, level, cur)
    ensures InGrid(x, 1, level, cur) ==> x[0] <= level
  {
    LevelPositionsMember(cur, x);
    if |x| >= 2 {
      assert WellFormed(x, 1) <==> |x| == 2 && ValidPair(x[0], x[1]) by {
        assert WellFormed(x[2..], 0) <==> |x| == 2;
      }
      assert |x| == 2 ==> LevelSum(x) == x[0] by {
        if |x| == 2 {
          assert LevelSum(x[2..]) == 0;
        }
      }
    }
  }

  /**
   * Several dimensions: `cross` of the level-`cur` pairs with the indices of
   * the other dimensions under the budget `level − cur + 1` holds exactly
   * the admissible indices whose first level is `cur`.
   */
  lemma HeadMember(dim: nat, level: nat, cur: nat, x: seq<int>)
    requires dim >= 2 && 1 <= cur <= level
    ensures x in Cross(LevelPositions(cur), GeneratePointsRec(dim - 1, level - cur + 1, 1)) <==>
      |x| >= 2 && x[0] == cur && InGrid(x, dim, level, cur)
    decreases dim, level - cur, 1
  {
    if |x| >= 2 {
      GenerateMember(dim - 1, level - cur + 1, 1, x[2..]);
    }
    HeadJoinBoth(dim, level, cur, x);
  }

  /** Both directions of the head membership, once the rest's membership is known. */
  lemma HeadJoinBoth(dim: nat, level: nat, cur: nat, x: seq<int>)
    requires dim >= 2 && 1 <= cur <= level
    requires |x| >= 2 ==> (x[2..] in GeneratePointsRec(dim - 1, level - cur + 1, 1) <==> InGrid(x[2..], dim - 1, level - cur + 1, 1))
    ensures x in Cross(LevelPositions(cur), GeneratePointsRec(dim - 1, level - cur + 1, 1)) <==>
      |x| >= 2 && x[0] == cur && InGrid(x, dim, level, cur)
  {
    if x in Cross(LevelPositions(cur), GeneratePointsRec(dim - 1, level - cur + 1, 1)) {
      HeadMemberSound(dim, level, cur, x);
    }
    if |x| >= 2 && x[0] == cur && InGrid(x, dim, level, cur) {
      HeadMemberComplete(dim, level, cur, x);
    }
  }

  lemma HeadMemberSound(dim: nat, level: nat, cur: nat, x: seq<int>)
    requires dim >= 2 && 1 <= cur <= level
    requires x in Cross(LevelPositions(cur), GeneratePointsRec(dim - 1, level - cur + 1, 1))
    requires |x| >= 2 ==> (x[2..] in GeneratePointsRec(dim - 1, level - cur + 1, 1) <==> InGrid(x[2..], dim - 1, level - cur + 1, 1))
    ensures |x| >= 2 && x[0] == cur && InGrid(x, dim, level, cur)
  {
    CrossLevelSplit(cur, GeneratePointsRec(dim - 1, level - cur + 1, 1), x);
    HeadSound(dim, level, cur, x);
  }

  /** An element of `Cross(LevelPositions(l), b)` is a valid level-`l` pair followed by an element of `b`. */
  lemma CrossLevelSplit(l: nat, b: seq<seq<int>>, x: seq<int>)
    requires l >= 1
    requires x in Cross(LevelPositions(l), b)
    ensures |x| >= 2 && x[0] == l && ValidPair(l, x[1]) && x[2..] in b
  {
    var a := LevelPositions(l);
    CrossMember(a, b, x);
    var i, k :| 0 <= i < |a| && 0 <= k < |b| && x == a[i] + b[k];
    LevelPositionsMember(l, a[i]);
    assert x[2..] == b[k];
  }

  lemma HeadMemberComplete(dim: nat, level: nat, cur: nat, x: seq<int>)
    requires dim >= 2 && 1 <= cur <= level
    requires |x| >= 2 && x[0] == cur && InGrid(x, dim, level, cur)
    requires x[2..] in GeneratePointsRec(dim - 1, level - cur + 1, 1) <==> InGrid(x[2..], dim - 1, level - cur + 1, 1)
    ensures x in Cross(LevelPositions(cur), GeneratePointsRec(dim - 1, level - cur + 1, 1))
  {
    HeadRest(dim, level, cur, x);
    HeadJoin(cur, GeneratePointsRec(dim - 1, level - cur + 1, 1), x);
  }

  /** The rest of an admissible index that starts at level `cur` fits the budget `level − cur + 1`. */
  lemma HeadRest(dim: nat, level: nat, cur: nat, x: seq<int>)
    requires dim >= 2 && 1 <= cur <= level
    requires |x| >= 2 && x[0] == cur && InGrid(x, dim, level, cur)
    ensures ValidPair(cur, x[1]) && InGrid(x[2..], dim - 1, level - cur + 1, 1)
  {
    LevelSumAtLeastDim(x[2..], dim - 1);
  }

  /** A valid level-`l` pair followed by an element of `b` is an element of `Cross(LevelPositions(l), b)`. */
  lemma HeadJoin(l: nat, b: seq<seq<int>>, x: seq<int>)
    requires l >= 1 && |x| >= 2 && x[0] == l && ValidPair(l, x[1]) && x[2..] in b
    ensures x in Cross(LevelPositions(l), b)
  {
    var a := LevelPositions(l);
    var k :| 0 <= k < |b| && b[k] == x[2..];
    LevelPositionsMember(l, x[..2]);
    assert x[..2] in a;
    var i' :| 0 <= i' < |a| && a[i'] == x[..2];
    CrossMember(a, b, x);
    assert x == a[i'] + b[k];
  }

  lemma HeadSound(dim: nat, level: nat, cur: nat, x: seq<int>)
    requires dim >= 2 && 1 <= cur <= level
    requires |x| >= 2 && x[0] == cur && ValidPair(cur, x[1])
    requires InGrid(x[2..], dim - 1, level - cur + 1, 1)
    ensures InGrid(x, dim, level, cur)
  {
  }

  /** No index is generated twice. */
  predicate Distinct(s: seq<seq<int>>)
  {
    forall i, j :: 0 <= i < j < |s| ==> s[i] != s[j]
  }

  lemma DistinctConcat(s1: seq<seq<int>>, s2: seq<seq<int>>)
    requires Distinct(s1) && Distinct(s2)
    requires forall x :: x in s1 ==> x !in s2
    ensures Distinct(s1 + s2)
  {
    var s := s1 + s2;
    forall i, j | 0 <= i < j < |s| ensures s[i] != s[j] {
      if i < |s1| && j >= |s1| {
        assert s[i] in s1 && s[j] in s2;
      }
    }
  }

  /** Distinct prefixes of one length, combined with distinct tails, stay distinct. */
  lemma {:induction false} CrossDistinct(a: seq<seq<int>>, b: seq<seq<int>>, la: nat)
    requires Distinct(a) && Distinct(b)
    requires forall x :: x in a ==> |x| == la
    ensures Distinct(Cross(a, b))
  {
    if a != [] {
      var pre := PrependAll(a[0], b);
      var rest := Cross(a[1..], b);
      assert Cross(a, b) == pre + rest;
      CrossDistinct(a[1..], b, la);
      PrependAllDistinct(a[0], b);
      forall x | x in pre ensures x !in rest {
        PrependAllDisjoint(a, b, la, x);
      }
      DistinctConcat(pre, rest);
    }
  }

  lemma PrependAllDistinct(x: seq<int>, b: seq<seq<int>>)
    requires Distinct(b)
    ensures Distinct(PrependAll(x, b))
  {
    var pre := PrependAll(x, b);
    PrependAllAt(x, b);
    forall i, j | 0 <= i < j < |pre| ensures pre[i] != pre[j] {
      assert pre[i][|x|..] == b[i] && pre[j][|x|..] == b[j];
    }
  }

  lemma PrependAllDisjoint(a: seq<seq<int>>, b: seq<seq<int>>, la: nat, x: seq<int>)
    requires a != [] && Distinct(a)
    requires forall y :: y in a ==> |y| == la
    requires x in PrependAll(a[0], b)
    ensures x !in Cross(a[1..], b)
  {
    var pre := PrependAll(a[0], b);
    PrependAllAt(a[0], b);
    var k :| 0 <= k < |pre| && pre[k] == x;
    assert |a[0]| == la by { assert a[0] in a; }
    assert x[..la] == a[0] by { assert x == a[0] + b[k]; }
    if x in Cross(a[1..], b) {
      CrossPrefix(a[1..], b, la, x);
      assert false;
    }
  }

  /** The first `la` entries of an element of `Cross(a, b)` are an element of `a`. */
  lemma CrossPrefix(a: seq<seq<int>>, b: seq<seq<int>>, la: nat, x: seq<int>)
    requires forall y :: y in a ==> |y| == la
    requires x in Cross(a, b)
    ensures |x| >= la && x[..la] in a
  {
    CrossMember(a, b, x);
    var i, k :| 0 <= i < |a| && 0 <= k < |b| && x == a[i] + b[k];
    assert a[i] in a;
    assert x[..la] == a[i];
  }

  /** Every admissible index is generated exactly once. */
  lemma {:induction false} GenerateDistinct(dim: nat, level: nat, cur: nat)
    requires dim >= 1 && 1 <= cur <= level
    ensures Distinct(GeneratePointsRec(dim, level, cur))
    decreases dim, level - cur, 1
  {
    FirstBlockDistinct(dim, level, cur);
    if cur < level {
      GenerateDistinct(dim, level, cur + 1);
      JoinDistinct(dim, level, cur);
    }
  }

  /** The first block followed by the later levels has no repeats when neither part has. */
  lemma JoinDistinct(dim: nat, level: nat, cur: nat)
    requires dim >= 1 && 1 <= cur < level
    requires Distinct(FirstBlock(dim, level, cur)) && Distinct(GeneratePointsRec(dim, level, cur + 1))
    ensures Distinct(GeneratePointsRec(dim, level, cur))
  {
    FirstBlockStarts(dim, level, cur);
    LaterStarts(dim, level, cur + 1);
    DistinctConcatByStart(FirstBlock(dim, level, cur), GeneratePointsRec(dim, level, cur + 1), cur);
  }

  /** Every index of the first block starts at level `cur`. */
  lemma FirstBlockStarts(dim: nat, level: nat, cur: nat)
    requires dim >= 1 && 1 <= cur <= level
    ensures forall i :: 0 <= i < |FirstBlock(dim, level, cur)| ==>
      |FirstBlock(dim, level, cur)[i]| >= 2 && FirstBlock(dim, level, cur)[i][0] == cur
  {
    var s := FirstBlock(dim, level, cur);
    forall i | 0 <= i < |s| ensures |s[i]| >= 2 && s[i][0] == cur {
      assert s[i] in s;
      FirstBlockMember(dim, level, cur, s[i]);
    }
  }

  /** Every index generated from level `cur` on starts at level `cur` or above. */
  lemma LaterStarts(dim: nat, level: nat, cur: nat)
    requires dim >= 1 && 1 <= cur <= level
    ensures forall i :: 0 <= i < |GeneratePointsRec(dim, level, cur)| ==>
      |GeneratePointsRec(dim, level, cur)[i]| >= 2 && GeneratePointsRec(dim, level, cur)[i][0] >= cur
  {
    var s := GeneratePointsRec(dim, level, cur);
    forall i | 0 <= i < |s| ensures |s[i]| >= 2 && s[i][0] >= cur {
      assert s[i] in s;
      GenerateMember(dim, level, cur, s[i]);
    }
  }

  /** Two repeat-free lists whose entries start at different first levels concatenate without repeats. */
  lemma DistinctConcatByStart(s1: seq<seq<int>>, s2: seq<seq<int>>, cur: int)
    requires Distinct(s1) && Distinct(s2)
    requires forall i :: 0 <= i < |s1| ==> |s1[i]| >= 2 && s1[i][0] == cur
    requires forall j :: 0 <= j < |s2| ==> |s2[j]| >= 2 && s2[j][0] > cur
    ensures Distinct(s1 + s2)
  {
    var s := s1 + s2;
    forall i, j | 0 <= i < j < |s| ensures s[i] != s[j] {
      if i < |s1| && j >= |s1| {
        assert s[i] == s1[i] && s[j] == s2[j - |s1|];
      }
    }
  }

  /** The first block has no repeats, since the indices of the other dimensions have none. */
  lemma FirstBlockDistinct(dim: nat, level: nat, cur: nat)
    requires dim >= 1 && 1 <= cur <= level
    ensures Distinct(FirstBlock(dim, level, cur))
    decreases dim, level - cur, 0
  {
    var basisCur := LevelPositions(cur);
    assert Distinct(basisCur);
    if dim > 1 {
      GenerateDistinct(dim - 1, level - cur + 1, 1);
      CrossDistinct(basisCur, GeneratePointsRec(dim - 1, level - cur + 1, 1), 2);
    }
  }

  // ---------------------------------------------------------------------
  // counts
  // ---------------------------------------------------------------------

  /** One dimension: levels `cur..level` hold `2^level − 2^(cur−1)` points. */
  lemma {:induction false} GenerateCount1(level: nat, cur: nat)
    requires 1 <= cur <= level
    ensures |GeneratePointsRec(1, level, cur)| == Pow2(level) - Pow2(cur - 1)
    decreases level - cur
  {
    if cur < level {
      GenerateCount1(level, cur + 1);
    }
    assert Pow2(cur) == 2 * Pow2(cur - 1);
  }

  /** One dimension of level `n` has `2^n − 1` points. */
  lemma GenerateCountOneDim(n: nat)
    requires n >= 1
    ensures |GeneratePointsRec(1, n, 1)| == Pow2(n) - 1
  {
    GenerateCount1(n, 1);
  }

  /** The first block of the two-dimensional list: level `cur` crossed with a one-dimensional list. */
  lemma HeadCount(level: nat, cur: nat)
    requires 1 <= cur <= level
    ensures |Cross(LevelPositions(cur), GeneratePointsRec(1, level - cur + 1, 1))| == Pow2(level) - Pow2(cur - 1)
  {
    var inner := level - cur + 1;
    var lp, rest := LevelPositions(cur), GeneratePointsRec(1, inner, 1);
    CrossLength(lp, rest);
    GenerateCount1(inner, 1);
    Pow2Add(cur - 1, inner);
    HeadStep(|lp|, |rest|, Pow2(inner), Pow2(level));
  }

  /** The arithmetic of `HeadCount`: `c·(p − 1) = c·p − c`. */
  lemma HeadStep(c: int, rest: int, p: int, total: int)
    requires rest == p - 1 && c * p == total
    ensures c * rest == total - c
  {
  }

  /** Two dimensions: levels `cur..level` of the first dimension hold `(level − cur)·2^level + 2^(cur−1)` points. */
  lemma {:induction false} GenerateCount2(level: nat, cur: nat)
    requires 1 <= cur <= level
    ensures |GeneratePointsRec(2, level, cur)| == (level - cur) * Pow2(level) + Pow2(cur - 1)
    decreases level - cur
  {
    var head := Cross(LevelPositions(cur), GeneratePointsRec(1, level - cur + 1, 1));
    HeadCount(level, cur);
    if cur < level {
      var tail := GeneratePointsRec(2, level, cur + 1);
      assert GeneratePointsRec(2, level, cur) == head + tail;
      GenerateCount2(level, cur + 1);
      assert Pow2(cur) == 2 * Pow2(cur - 1);
      CountStep(level, cur, Pow2(level), Pow2(cur - 1), |head|, |tail|);
    } else {
      assert GeneratePointsRec(2, level, cur) == head;
    }
  }

  /** The arithmetic of one step of `GenerateCount2`. */
  lemma CountStep(level: int, cur: int, p: int, c: int, head: int, tail: int)
    requires head == p - c && tail == (level - (cur + 1)) * p + 2 * c
    ensures head + tail == (level - cur) * p + c
  {
  }

  /** The two grids of the regression tests: 17 points for (2, 3) and 31 for (3, 3). */
  lemma GenerateCountExamples()
    ensures |GeneratePointsRec(2, 3, 1)| == 17
    ensures |GeneratePointsRec(3, 3, 1)| == 31
  {
    GenerateCount2(3, 1);
    GenerateCount2(2, 1);
    GenerateCount2(1, 1);
    assert Pow2(3) == 8 && Pow2(2) == 4 && Pow2(1) == 2 && Pow2(0) == 1;
    assert LevelPositions(2) == [[2, 1], [2, 3]];
    assert |GeneratePointsRec(3, 3, 3)| == 4 * |GeneratePointsRec(2, 1, 1)|;
    assert |GeneratePointsRec(3, 3, 2)| == 2 * |GeneratePointsRec(2, 2, 1)| + |GeneratePointsRec(3, 3, 3)|;
    assert |GeneratePointsRec(3, 3, 1)| == |GeneratePointsRec(2, 3, 1)| + |GeneratePointsRec(3, 3, 2)|;
  }
}
