/**
 * Evaluation of the sparse-grid interpolant (`eval_funct`,
 * `loop_hier_spaces`, `loop_hier_spaces_rec` and `eval_action`,
 * sparse_grid/grid.py): per dimension and level the one basis function
 * whose support holds the point, the order in which the traversal visits
 * the level vectors, and the interpolant as the sum the traversal adds up.
 */
module Evaluation {
  import opened Wrappers
  import opened Utils
  import opened MultiIndex
  import opened Generation
  import opened Hierarchy

  // ---------------------------------------------------------------------
  // the active basis function of one level
  // ---------------------------------------------------------------------

  /** Python's `math.ceil`: the least integer not below `r`. */
  function Ceil(r: real): (c: int)
    ensures c as real - 1.0 < r <= c as real
  {
    -((-r).Floor)
  }

  /**
   * The position of the level-`j` hat whose support holds the normalised
   * coordinate `t`: `ceil(t · 2^(j−1)) · 2 − 1`, with `−1` (at `t == 0`)
   * replaced by `1`.
   */
  function ActivePosition(t: real, j: int): int
    requires j >= 1
  {
    var b := Ceil(t * Pow2Real(j - 1)) * 2 - 1;
    if b == -1 then 1 else b
  }

  /** The position as `eval_funct` computes it, step by step. */
  lemma ActivePositionSteps(t: real, j: int)
    requires j >= 1
    ensures var b := Ceil(t * Pow2Real(j - 1)) * 2 - 1;
      ActivePosition(t, j) == if b == -1 then 1 else b
  {
  }

  /** With `0 ≤ s ≤ w`, `ceil(s)` lies in `[0, w]`, and is 0 only at `s == 0`. */
  lemma CeilRange(s: real, w: nat)
    requires 0.0 <= s <= w as real
    ensures 0 <= Ceil(s) <= w
    ensures Ceil(s) == 0 ==> s == 0.0
  {
  }

  /** `2·s − (2·c − 1)` lies in `(−1, 1]` when `c = ceil(s)`. */
  lemma CeilOffset(s: real)
    ensures -1.0 < 2.0 * s - (2 * Ceil(s) - 1) as real <= 1.0
  {
  }

  lemma ScaleUnit(t: real, w: real)
    requires 0.0 <= t <= 1.0 && w > 0.0
    ensures 0.0 <= t * w <= w
    ensures t * w == 0.0 ==> t == 0.0
  {
  }

  lemma PowRealStep(j: int)
    requires j >= 1
    ensures Pow2Real(j) == 2.0 * Pow2Real(j - 1)
    ensures Pow2Real(j - 1) == Pow2(j - 1) as real
    ensures Pow2(j) == 2 * Pow2(j - 1)
  {
  }

  lemma MulTwo(t: real, w: real)
    ensures t * (2.0 * w) == 2.0 * (t * w)
  {
  }

  /** The hat at `t` of level `j` is `1 − |2·s − p|` with `s = t · 2^(j−1)`. */
  lemma ActiveScaled(t: real, j: int, p: int)
    requires j >= 1
    ensures EvalBasis1D(t, j, p, None) == 1.0 - Abs(2.0 * (t * Pow2Real(j - 1)) - p as real)
  {
    PowRealStep(j);
    MulTwo(t, Pow2Real(j - 1));
  }

  lemma OddForm(c: int)
    ensures (2 * c - 1) % 2 == 1
  {
  }

  /** The active position in terms of `c = ceil(t · 2^(j−1))`, which lies in `[0, 2^(j−1)]`. */
  lemma ActiveCeil(t: real, j: int)
    requires 0.0 <= t <= 1.0 && j >= 1
    ensures var c := Ceil(t * Pow2Real(j - 1));
      0 <= c <= Pow2(j - 1) &&
      (c == 0 ==> t == 0.0 && ActivePosition(t, j) == 1) &&
      (c != 0 ==> ActivePosition(t, j) == 2 * c - 1)
  {
    var c := Ceil(t * Pow2Real(j - 1));
    assert ActivePosition(t, j) == (if c * 2 - 1 == -1 then 1 else c * 2 - 1);
    CeilScaled(t, j);
  }

  lemma CeilScaled(t: real, j: int)
    requires 0.0 <= t <= 1.0 && j >= 1
    ensures 0 <= Ceil(t * Pow2Real(j - 1)) <= Pow2(j - 1)
    ensures Ceil(t * Pow2Real(j - 1)) == 0 ==> t == 0.0
  {
    var w := Pow2(j - 1);
    var s := t * Pow2Real(j - 1);
    assert Pow2Real(j - 1) == w as real;
    ScaleUnit(t, w as real);
    CeilRange(s, w);
  }

  /**
   * For `t` in `[0, 1]` the active position is a valid odd position of
   * level `j`, and its hat is not negative at `t`.
   */
  lemma ActivePositionValid(t: real, j: int)
    requires 0.0 <= t <= 1.0 && j >= 1
    ensures ValidPair(j, ActivePosition(t, j))
    ensures EvalBasis1D(t, j, ActivePosition(t, j), None) >= 0.0
  {
    var s := t * Pow2Real(j - 1);
    var c := Ceil(s);
    var p := ActivePosition(t, j);
    ActiveCeil(t, j);
    PowRealStep(j);
    ActiveScaled(t, j, p);
    if c == 0 {
      assert 2.0 * s - p as real == -1.0;
    } else {
      OddForm(c);
      CeilOffset(s);
    }
  }

  /**
   * The active position is the only odd position of level `j` whose hat is
   * positive at `t`: every other basis function of that level vanishes or
   * is negative there.
   */
  lemma ActivePositionUnique(t: real, j: int, q: int)
    requires 0.0 <= t <= 1.0 && j >= 1
    requires q % 2 == 1
    requires EvalBasis1D(t, j, q, None) > 0.0
    ensures q == ActivePosition(t, j)
  {
    var p := ActivePosition(t, j);
    ActivePositionValid(t, j);
    ActiveScaled(t, j, p);
    ActiveScaled(t, j, q);
    var y := 2.0 * (t * Pow2Real(j - 1));
    assert Abs(y - q as real) < 1.0;
    assert Abs(y - p as real) <= 1.0;
    assert -2.0 < (p - q) as real < 2.0;
    assert -2 < p - q < 2;
  }

  // ---------------------------------------------------------------------
  // the traversal of the level vectors
  // ---------------------------------------------------------------------

  /** `[i] ++ v` for every `v` of `vs`, in order. */
  function Prepend(i: int, vs: seq<seq<int>>): (r: seq<seq<int>>)
    ensures |r| == |vs|
    ensures forall k :: 0 <= k < |vs| ==> r[k] == [i] + vs[k]
  {
    seq(|vs|, k requires 0 <= k < |vs| => [i] + vs[k])
  }

  /**
   * The level vectors that `loop_hier_spaces_rec(n, budget)` appends to the
   * current one, from the iteration `i` of its loop on: level `i` first,
   * then, with more than one dimension left, every continuation under the
   * budget `budget − (i − 1)`.
   */
  function LevelVectors(n: nat, budget: int, i: int): seq<seq<int>>
    requires n >= 1 && i >= 1
    decreases n, budget - (i - 1)
  {
    if i > budget then []
    else (if n == 1 then [[i]] else Prepend(i, LevelVectors(n - 1, budget - (i - 1), 1))) + LevelVectors(n, budget, i + 1)
  }

  /** The sum of the entries of a level vector. */
  function Total(v: seq<int>): int
  {
    if v == [] then 0 else v[0] + Total(v[1..])
  }

  predicate AllPositive(v: seq<int>)
  {
    forall k :: 0 <= k < |v| ==> v[k] >= 1
  }

  /** With every entry at least 1, the sum is at least any entry plus one for each other entry. */
  lemma {:induction false} TotalBound(v: seq<int>, k: nat)
    requires AllPositive(v) && k < |v|
    ensures Total(v) >= v[k] + |v| - 1
  {
    if k > 0 {
      TotalBound(v[1..], k - 1);
    } else if |v| > 1 {
      TotalBound(v[1..], 0);
    }
  }

  /**
   * The traversal visits exactly the vectors of `n` levels, all at least 1,
   * whose first level is `i` or more and whose sum is at most
   * `budget + n − 1`.
   */
  lemma {:induction false} LevelVectorsMember(n: nat, budget: int, i: int, v: seq<int>)
    requires n >= 1 && i >= 1
    ensures v in LevelVectors(n, budget, i) <==>
      |v| == n && AllPositive(v) && v[0] >= i && Total(v) <= budget + n - 1
    decreases n, budget - (i - 1), 2
  {
    if i > budget {
      if |v| == n && AllPositive(v) {
        TotalBound(v, 0);
      }
    } else {
      LevelVectorsMember(n, budget, i + 1, v);
      LevelVectorsStep(n, budget, i, v);
    }
  }

  /** The membership test at iteration `i`, from the one at iteration `i + 1`. */
  lemma LevelVectorsStep(n: nat, budget: int, i: int, v: seq<int>)
    requires n >= 1 && 1 <= i <= budget
    requires v in LevelVectors(n, budget, i + 1) <==>
      |v| == n && AllPositive(v) && v[0] >= i + 1 && Total(v) <= budget + n - 1
    ensures v in LevelVectors(n, budget, i) <==>
      |v| == n && AllPositive(v) && v[0] >= i && Total(v) <= budget + n - 1
    decreases n, budget - (i - 1), 1
  {
    if n == 1 {
      SingleMember(budget, i, v);
    } else {
      BlockMember(n, budget, i, v);
    }
    LevelVectorsSplit(n, budget, i, v);
  }

  /** Iteration `i` contributes its block, and the later iterations the rest. */
  lemma LevelVectorsSplit(n: nat, budget: int, i: int, v: seq<int>)
    requires n >= 1 && 1 <= i <= budget
    ensures v in LevelVectors(n, budget, i) <==>
      v in (if n == 1 then [[i]] else Prepend(i, LevelVectors(n - 1, budget - (i - 1), 1))) ||
      v in LevelVectors(n, budget, i + 1)
  {
  }

  /** With one dimension left, iteration `i` contributes the vector `[i]` alone. */
  lemma SingleMember(budget: int, i: int, v: seq<int>)
    requires 1 <= i <= budget
    ensures v in [[i]] <==> |v| == 1 && AllPositive(v) && v[0] == i && Total(v) <= budget
  {
    if |v| == 1 {
      assert v == [v[0]];
      assert Total(v) == v[0] by {
        assert v[1..] == [];
      }
    }
  }

  /** The block of iteration `i` holds the vectors that start with level `i`. */
  lemma {:induction false} BlockMember(n: nat, budget: int, i: int, v: seq<int>)
    requires n >= 2 && 1 <= i <= budget
    ensures v in Prepend(i, LevelVectors(n - 1, budget - (i - 1), 1)) <==>
      |v| == n && AllPositive(v) && v[0] == i && Total(v) <= budget + n - 1
    decreases n, budget - (i - 1), 0
  {
    var sub := LevelVectors(n - 1, budget - (i - 1), 1);
    if |v| >= 1 {
      LevelVectorsMember(n - 1, budget - (i - 1), 1, v[1..]);
      PrependMember(i, sub, v);
      AllPositiveCons(v);
      if |v| == n && AllPositive(v) && v[0] == i {
        TotalBound(v[1..], 0);
      }
    } else {
      PrependMember(i, sub, v);
    }
  }

  lemma PrependMember(i: int, vs: seq<seq<int>>, v: seq<int>)
    ensures v in Prepend(i, vs) <==> |v| >= 1 && v[0] == i && v[1..] in vs
  {
    if |v| >= 1 && v[0] == i && v[1..] in vs {
      var k :| 0 <= k < |vs| && vs[k] == v[1..];
      assert Prepend(i, vs)[k] == v;
    }
  }

  lemma AllPositiveCons(v: seq<int>)
    requires |v| >= 1
    ensures AllPositive(v) <==> v[0] >= 1 && AllPositive(v[1..])
  {
    if v[0] >= 1 && AllPositive(v[1..]) {
      forall k | 0 <= k < |v| ensures v[k] >= 1 {
        if k > 0 {
          assert v[k] == v[1..][k - 1];
        }
      }
    }
  }

  /** The traversal visits no level vector twice. */
  lemma {:induction false} LevelVectorsDistinct(n: nat, budget: int, i: int)
    requires n >= 1 && i >= 1
    ensures Distinct(LevelVectors(n, budget, i))
    decreases n, budget - (i - 1)
  {
    if i <= budget {
      var head := if n == 1 then [[i]] else Prepend(i, LevelVectors(n - 1, budget - (i - 1), 1));
      var rest := LevelVectors(n, budget, i + 1);
      LevelVectorsDistinct(n, budget, i + 1);
      if n > 1 {
        var sub := LevelVectors(n - 1, budget - (i - 1), 1);
        LevelVectorsDistinct(n - 1, budget - (i - 1), 1);
        forall a, b | 0 <= a < b < |head| ensures head[a] != head[b] {
          assert head[a][1..] == sub[a] && head[b][1..] == sub[b];
        }
      }
      forall v | v in head ensures v !in rest {
        LevelVectorsMember(n, budget, i + 1, v);
      }
      DistinctConcat(head, rest);
    }
  }

  /** Every entry of a visited vector is a level between 1 and the budget. */
  lemma LevelVectorsBounded(n: nat, budget: int, v: seq<int>)
    requires n >= 1 && v in LevelVectors(n, budget, 1)
    ensures |v| == n && forall d :: 0 <= d < n ==> 1 <= v[d] <= budget
  {
    LevelVectorsMember(n, budget, 1, v);
    forall d | 0 <= d < n ensures v[d] <= budget {
      TotalBound(v, d);
    }
  }

  // ---------------------------------------------------------------------
  // the table of active basis functions and the interpolant
  // ---------------------------------------------------------------------

  /** One entry of `eval_per_dim`: the pair `[level, position]` and the hat's value at the point. */
  datatype ActiveBasis = ActiveBasis(pair: seq<int>, weight: real)

  /** `x` lies in the closed interval once normalised. */
  predicate InInterval(x: real, iv: Interval)
  {
    iv.hi != iv.lo && 0.0 <= Normalize(x, iv) <= 1.0
  }

  /** The active basis function of level `j` for the coordinate `xi`. */
  function ActiveAt(xi: real, iv: Interval, j: int): ActiveBasis
    requires iv.hi != iv.lo && j >= 1
  {
    var p := ActivePosition(Normalize(xi, iv), j);
    ActiveBasis([j, p], EvalBasis1D(xi, j, p, Some(iv)))
  }

  /** The point lies in the domain, dimension by dimension. */
  predicate InDomain(x: seq<real>, domain: seq<Interval>, dim: nat)
  {
    |x| >= dim && |domain| >= dim && forall i :: 0 <= i < dim ==> InInterval(x[i], domain[i])
  }

  /** One row of `eval_per_dim`: the active basis functions of levels `1..n` for the coordinate `xi`. */
  function ActiveRow(xi: real, iv: Interval, n: nat): (r: seq<ActiveBasis>)
    requires iv.hi != iv.lo
    ensures |r| == n
  {
    seq(n, k requires 0 <= k < n => ActiveAt(xi, iv, k + 1))
  }

  /** `eval_per_dim`: row `i` holds the active basis function of every level `1..level` of dimension `i`. */
  function ActiveTable(x: seq<real>, domain: seq<Interval>, dim: nat, level: nat): (t: seq<seq<ActiveBasis>>)
    requires |x| >= dim && |domain| >= dim
    requires forall i :: 0 <= i < dim ==> domain[i].hi != domain[i].lo
    ensures |t| == dim && forall i :: 0 <= i < dim ==> |t[i]| == level
  {
    seq(dim, i requires 0 <= i < dim => ActiveRow(x[i], domain[i], level))
  }

  /** A row grows by the active basis function of the next level. */
  lemma ActiveRowStep(xi: real, iv: Interval, n: nat)
    requires iv.hi != iv.lo
    ensures ActiveRow(xi, iv, n + 1) == ActiveRow(xi, iv, n) + [ActiveAt(xi, iv, n + 1)]
  {
  }

  /** The table grows by the row of the next dimension. */
  lemma ActiveTableStep(x: seq<real>, domain: seq<Interval>, dim: nat, level: nat)
    requires |x| > dim && |domain| > dim
    requires forall i :: 0 <= i <= dim ==> domain[i].hi != domain[i].lo
    ensures ActiveTable(x, domain, dim + 1, level) == ActiveTable(x, domain, dim, level) + [ActiveRow(x[dim], domain[dim], level)]
  {
  }

  /** Every pair of the table is a valid pair of its level, and its weight is not negative. */
  lemma ActiveTableValid(x: seq<real>, domain: seq<Interval>, dim: nat, level: nat, i: nat, k: nat)
    requires InDomain(x, domain, dim)
    requires i < dim && k < level
    ensures var e := ActiveTable(x, domain, dim, level)[i][k];
      |e.pair| == 2 && e.pair[0] == k + 1 && ValidPair(e.pair[0], e.pair[1]) && e.weight >= 0.0
  {
    var t := Normalize(x[i], domain[i]);
    assert ActiveTable(x, domain, dim, level)[i][k] == ActiveAt(x[i], domain[i], k + 1);
    ActivePositionValid(t, k + 1);
    HatInterval(x[i], k + 1, ActivePosition(t, k + 1), domain[i]);
  }

  /** The level vector `hs` picks one entry from each of the first `|hs|` rows of the table. */
  predicate Indexes(table: seq<seq<ActiveBasis>>, hs: seq<int>)
  {
    |hs| <= |table| && forall d :: 0 <= d < |hs| ==> 1 <= hs[d] <= |table[d]|
  }

  /** The concatenated pairs of the first `n` entries picked by `hs`: the index `basis` of `eval_action`. */
  function KeyUpTo(table: seq<seq<ActiveBasis>>, hs: seq<int>, n: nat): seq<int>
    requires Indexes(table, hs) && n <= |hs|
  {
    if n == 0 then [] else KeyUpTo(table, hs, n - 1) + table[n - 1][hs[n - 1] - 1].pair
  }

  /** The product of the first `n` weights picked by `hs`: the `value` of `eval_action`. */
  function WeightUpTo(table: seq<seq<ActiveBasis>>, hs: seq<int>, n: nat): real
    requires Indexes(table, hs) && n <= |hs|
  {
    if n == 0 then 1.0 else WeightUpTo(table, hs, n - 1) * table[n - 1][hs[n - 1] - 1].weight
  }

  /**
   * The contribution of the subspace `hs`: the hierarchical value at its
   * active point times the product of the hats (none for a vector that
   * does not index the table, which the traversal never visits).
   */
  function Term(hv: Values, table: seq<seq<ActiveBasis>>, hs: seq<int>): real
  {
    if Indexes(table, hs) then Lookup(hv, KeyUpTo(table, hs, |hs|)) * WeightUpTo(table, hs, |hs|) else 0.0
  }

  /** The contribution of a subspace is the value at its active point times the product of its hats. */
  lemma TermIs(hv: Values, table: seq<seq<ActiveBasis>>, hs: seq<int>, key: seq<int>, x: real, w: real)
    requires Indexes(table, hs) && key == KeyUpTo(table, hs, |hs|) && x == Lookup(hv, key)
    requires w == WeightUpTo(table, hs, |hs|)
    ensures Term(hv, table, hs) == x * w
  {
  }

  /** The contributions of the subspaces `prefix ++ v` for every `v` of `vs`. */
  function SumOver(hv: Values, table: seq<seq<ActiveBasis>>, prefix: seq<int>, vs: seq<seq<int>>): real
  {
    if vs == [] then 0.0 else Term(hv, table, prefix + vs[0]) + SumOver(hv, table, prefix, vs[1..])
  }

  lemma {:induction false} SumOverAppend(hv: Values, table: seq<seq<ActiveBasis>>, prefix: seq<int>, a: seq<seq<int>>, b: seq<seq<int>>)
    ensures SumOver(hv, table, prefix, a + b) == SumOver(hv, table, prefix, a) + SumOver(hv, table, prefix, b)
  {
    if a != [] {
      assert (a + b)[1..] == a[1..] + b;
      SumOverAppend(hv, table, prefix, a[1..], b);
    } else {
      assert a + b == b;
    }
  }

  /** Summing `prefix ++ [i] ++ v` is summing `(prefix ++ [i]) ++ v`. */
  lemma {:induction false} SumOverPrepend(hv: Values, table: seq<seq<ActiveBasis>>, prefix: seq<int>, i: int, vs: seq<seq<int>>)
    ensures SumOver(hv, table, prefix, Prepend(i, vs)) == SumOver(hv, table, prefix + [i], vs)
  {
    var pv := Prepend(i, vs);
    if vs != [] {
      assert pv[0] == [i] + vs[0];
      assert prefix + pv[0] == prefix + [i] + vs[0];
      assert pv[1..] == Prepend(i, vs[1..]);
      SumOverPrepend(hv, table, prefix, i, vs[1..]);
    }
  }

  /**
   * The value `eval_funct` returns: over the level vectors in traversal
   * order, the hierarchical value of the active point times the product of
   * the active hats.
   */
  function Interpolant(hv: Values, table: seq<seq<ActiveBasis>>, dim: nat, level: nat): real
    requires dim >= 1
  {
    SumOver(hv, table, [], LevelVectors(dim, level, 1))
  }

  /** Every entry picked by `hs` is a valid pair of the level `hs` names. */
  predicate ValidPicks(table: seq<seq<ActiveBasis>>, hs: seq<int>)
  {
    Indexes(table, hs) &&
    forall d :: 0 <= d < |hs| ==>
      |table[d][hs[d] - 1].pair| == 2 && table[d][hs[d] - 1].pair[0] == hs[d] &&
      ValidPair(table[d][hs[d] - 1].pair[0], table[d][hs[d] - 1].pair[1])
  }

  /** The key picked by valid entries is well formed, and its level sum is the sum of the level vector. */
  lemma {:induction false} PickedKeyWellFormed(table: seq<seq<ActiveBasis>>, hs: seq<int>, n: nat)
    requires ValidPicks(table, hs) && n <= |hs|
    ensures WellFormed(KeyUpTo(table, hs, n), n) && LevelSum(KeyUpTo(table, hs, n)) == Total(hs[..n])
  {
    if n > 0 {
      PickedKeyWellFormed(table, hs, n - 1);
      var pair := table[n - 1][hs[n - 1] - 1].pair;
      assert pair == [pair[0], pair[1]];
      AppendPair(KeyUpTo(table, hs, n - 1), n - 1, pair[0], pair[1]);
      assert hs[..n] == hs[..n - 1] + [hs[n - 1]];
      TotalAppend(hs[..n - 1], hs[n - 1]);
    }
  }

  /** A level vector with every level in `1..level` picks valid entries of the table. */
  lemma ActiveTablePicks(x: seq<real>, domain: seq<Interval>, dim: nat, level: nat, hs: seq<int>)
    requires InDomain(x, domain, dim)
    requires |hs| == dim && forall d :: 0 <= d < dim ==> 1 <= hs[d] <= level
    ensures ValidPicks(ActiveTable(x, domain, dim, level), hs)
  {
    forall d | 0 <= d < dim
      ensures var e := ActiveTable(x, domain, dim, level)[d][hs[d] - 1];
        |e.pair| == 2 && e.pair[0] == hs[d] && ValidPair(e.pair[0], e.pair[1])
    {
      ActiveTableValid(x, domain, dim, level, d, hs[d] - 1);
    }
  }

  lemma {:induction false} TotalAppend(v: seq<int>, x: int)
    ensures Total(v + [x]) == Total(v) + x
  {
    if v != [] {
      assert (v + [x])[1..] == v[1..] + [x];
      TotalAppend(v[1..], x);
    } else {
      assert [] + [x] == [x];
      assert [x][1..] == [];
    }
  }

  /**
   * For a point in the domain, every subspace the traversal visits picks an
   * admissible index, so every key `eval_action` looks up is a grid point.
   */
  lemma ActiveKeyAdmissible(x: seq<real>, domain: seq<Interval>, dim: nat, level: nat, hs: seq<int>)
    requires dim >= 1 && InDomain(x, domain, dim)
    requires hs in LevelVectors(dim, level, 1)
    ensures |hs| == dim && Indexes(ActiveTable(x, domain, dim, level), hs) &&
      Admissible(KeyUpTo(ActiveTable(x, domain, dim, level), hs, dim), dim, level)
  {
    LevelVectorsBounded(dim, level, hs);
    LevelVectorsMember(dim, level, 1, hs);
    ActiveTablePicks(x, domain, dim, level, hs);
    PickedKeyWellFormed(ActiveTable(x, domain, dim, level), hs, dim);
    assert hs[..dim] == hs;
  }

  // ---------------------------------------------------------------------
  // one step of the traversal
  // ---------------------------------------------------------------------

  /**
   * Every subspace `prefix ++ v` for `v` in `vs` has `dim` levels, picks
   * entries of the table, and its key is one of `keys`: the lookups of
   * `eval_action` along the traversal all succeed.
   */
  ghost predicate Covered(keys: set<seq<int>>, table: seq<seq<ActiveBasis>>, prefix: seq<int>, vs: seq<seq<int>>, dim: nat)
  {
    forall v :: v in vs ==> CoveredOne(keys, table, prefix + v, dim)
  }

  /** The subspace `hs` has `dim` levels, picks entries of the table, and its key is one of `keys`. */
  ghost predicate CoveredOne(keys: set<seq<int>>, table: seq<seq<ActiveBasis>>, hs: seq<int>, dim: nat)
  {
    |hs| == dim && Indexes(table, hs) && KeyUpTo(table, hs, dim) in keys
  }

  /** The subspaces under `prefix ++ [i]` are covered when those of `Prepend(i, vs)` under `prefix` are. */
  lemma CoveredPrepend(keys: set<seq<int>>, table: seq<seq<ActiveBasis>>, prefix: seq<int>, i: int, vs: seq<seq<int>>, dim: nat)
    requires Covered(keys, table, prefix, Prepend(i, vs), dim)
    ensures Covered(keys, table, prefix + [i], vs, dim)
  {
    var block := Prepend(i, vs);
    forall v | v in vs
      ensures CoveredOne(keys, table, prefix + [i] + v, dim)
    {
      var k :| 0 <= k < |vs| && vs[k] == v;
      assert block[k] == [i] + v;
      assert prefix + [i] + v == prefix + block[k];
    }
  }

  /**
   * Iteration `i` of the loop of `loop_hier_spaces_rec(1, budget)`: the
   * subspace `prefix ++ [i]` first, then those of the later iterations.
   */
  lemma TraversalStepLast(keys: set<seq<int>>, hv: Values, table: seq<seq<ActiveBasis>>, prefix: seq<int>, budget: int, i: int, dim: nat)
    requires 1 <= i <= budget
    requires Covered(keys, table, prefix, LevelVectors(1, budget, i), dim)
    ensures Covered(keys, table, prefix, LevelVectors(1, budget, i + 1), dim)
    ensures Covered(keys, table, prefix, [[i]], dim)
    ensures SumOver(hv, table, prefix, LevelVectors(1, budget, i)) ==
      Term(hv, table, prefix + [i]) + SumOver(hv, table, prefix, LevelVectors(1, budget, i + 1))
  {
    var rest := LevelVectors(1, budget, i + 1);
    assert LevelVectors(1, budget, i) == [[i]] + rest;
    SumOverAppend(hv, table, prefix, [[i]], rest);
    assert [[i]][1..] == [];
  }

  /**
   * Iteration `i` of the loop of `loop_hier_spaces_rec(n, budget)` with
   * `n > 1`: the subspaces under `prefix ++ [i]` first, then those of the
   * later iterations.
   */
  lemma TraversalStepInner(keys: set<seq<int>>, hv: Values, table: seq<seq<ActiveBasis>>, prefix: seq<int>, n: nat, budget: int, i: int, dim: nat)
    requires n > 1 && 1 <= i <= budget
    requires Covered(keys, table, prefix, LevelVectors(n, budget, i), dim)
    ensures Covered(keys, table, prefix, LevelVectors(n, budget, i + 1), dim)
    ensures Covered(keys, table, prefix + [i], LevelVectors(n - 1, budget - (i - 1), 1), dim)
    ensures SumOver(hv, table, prefix, LevelVectors(n, budget, i)) ==
      SumOver(hv, table, prefix + [i], LevelVectors(n - 1, budget - (i - 1), 1)) + SumOver(hv, table, prefix, LevelVectors(n, budget, i + 1))
  {
    var rest := LevelVectors(n, budget, i + 1);
    var sub := LevelVectors(n - 1, budget - (i - 1), 1);
    var block := Prepend(i, sub);
    assert LevelVectors(n, budget, i) == block + rest;
    CoveredPrepend(keys, table, prefix, i, sub, dim);
    SumOverPrepend(hv, table, prefix, i, sub);
    SumOverAppend(hv, table, prefix, block, rest);
  }

  /** Iteration `i` of `loop_hier_spaces` adds the subspaces under `[i]`, then the later iterations add the rest. */
  lemma SumFirst(hv: Values, table: seq<seq<ActiveBasis>>, n: nat, budget: int, i: int)
    requires n > 1 && 1 <= i <= budget
    ensures SumOver(hv, table, [], LevelVectors(n, budget, i)) ==
      SumOver(hv, table, [i], LevelVectors(n - 1, budget - (i - 1), 1)) + SumOver(hv, table, [], LevelVectors(n, budget, i + 1))
  {
    var sub := LevelVectors(n - 1, budget - (i - 1), 1);
    assert LevelVectors(n, budget, i) == Prepend(i, sub) + LevelVectors(n, budget, i + 1);
    SumOverPrepend(hv, table, [], i, sub);
    SumOverAppend(hv, table, [], Prepend(i, sub), LevelVectors(n, budget, i + 1));
    assert [] + [i] == [i];
  }

  /** The subspaces under `[i]` are among the level vectors of the whole traversal, so their lookups are covered. */
  lemma CoveredBlock(keys: set<seq<int>>, table: seq<seq<ActiveBasis>>, n: nat, budget: int, i: int, dim: nat)
    requires n > 1 && 1 <= i <= budget
    requires Covered(keys, table, [], LevelVectors(n, budget, 1), dim)
    ensures Covered(keys, table, [i], LevelVectors(n - 1, budget - (i - 1), 1), dim)
  {
    var sub := LevelVectors(n - 1, budget - (i - 1), 1);
    forall v | v in sub ensures CoveredOne(keys, table, [i] + v, dim) {
      var x := [i] + v;
      assert x[1..] == v;
      PrependMember(i, sub, x);
      BlockMember(n, budget, i, x);
      LevelVectorsMember(n, budget, 1, x);
      assert [] + x == x;
    }
  }

  /** A traversal past its last iteration visits nothing. */
  lemma TraversalDone(n: nat, budget: int, i: int)
    requires n >= 1 && i >= 1 && i > budget
    ensures LevelVectors(n, budget, i) == []
  {
  }

  /**
   * For a point in the domain of a grid holding every admissible index,
   * every lookup of the traversal succeeds.
   */
  lemma TableCovered(keys: set<seq<int>>, x: seq<real>, domain: seq<Interval>, dim: nat, level: nat)
    requires dim >= 1 && InDomain(x, domain, dim)
    requires forall k :: Admissible(k, dim, level) ==> k in keys
    ensures Covered(keys, ActiveTable(x, domain, dim, level), [], LevelVectors(dim, level, 1), dim)
  {
    forall v | v in LevelVectors(dim, level, 1)
      ensures CoveredOne(keys, ActiveTable(x, domain, dim, level), [] + v, dim)
    {
      assert [] + v == v;
      ActiveKeyAdmissible(x, domain, dim, level, v);
    }
  }
}
