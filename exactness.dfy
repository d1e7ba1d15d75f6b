/**
 * Interpolation at the grid points: once the nodal values are hierarchized,
 * the sum that `eval_funct` adds up (sparse_grid/grid.py) returns every
 * point's nodal value at that point's own position, the property the
 * package's tests check (tests/test_sparse_grid_no_bound.py).
 *
 * The proof has three parts. In one dimension, the active hats of levels
 * `1..l` at a grid point of level `l` add up to the dehierarchized value
 * `NodalAt` (`LineExact`). At a grid point only the level vectors below the
 * point's own levels have a non-zero weight, and those form a box
 * (`InterpolantIsBoxSum`). Over that box, summing out one dimension is
 * dehierarchizing it (`CrossRows`), so all of them together give back the
 * nodal value (`BoxChain`, `InterpolatesAtGridPoints`).
 *
 * Facts about products are stated on variables: the lemmas below take or
 * hand back the factors as plain values (out-parameters, or parameters
 * pinned by a `requires`), so that each nonlinear step is about the same
 * variables on both sides.
 */
module Exactness {
  import opened Wrappers
  import opened Utils
  import opened Point
  import opened MultiIndex
  import opened Generation
  import opened Hierarchy
  import opened Evaluation

  // ---------------------------------------------------------------------
  // hats at dyadic points
  // ---------------------------------------------------------------------

  function IAbs(z: int): nat
  {
    if z < 0 then -z else z
  }

  lemma CastProduct(a: int, b: int)
    ensures (a * b) as real == (a as real) * (b as real)
  {
  }

  /** `2^l = 2^j · 2^(l − j)`, with the three powers handed back. */
  lemma {:induction false} Pow2Split(j: nat, l: nat) returns (pj: nat, pe: nat, pl: nat)
    requires j <= l
    ensures pj == Pow2(j) && pe == Pow2(l - j) && pl == Pow2(l)
    ensures pl == pj * pe
  {
    Pow2Add(j, l - j);
    pj, pe, pl := Pow2(j), Pow2(l - j), Pow2(l);
  }

  lemma SplitCore(w: real, e: real, wl: real, pj: int, pe: int, pl: int)
    requires w == pj as real && e == pe as real && wl == pl as real && pl == pj * pe
    ensures wl == w * e
  {
    CastProduct(pj, pe);
  }

  /** The same split on the real powers, from `w = 2^j`. */
  lemma {:induction false} SplitReal(j: nat, l: nat, w: real) returns (e: real, wl: real)
    requires j <= l && w == Pow2Real(j)
    ensures e == Pow2(l - j) as real && wl == Pow2Real(l)
    ensures w > 0.0 && e >= 1.0 && wl == w * e
  {
    var pj, pe, pl := Pow2Split(j, l);
    e, wl := pe as real, Pow2Real(l);
    SplitCore(w, e, wl, pj, pe, pl);
  }

  lemma {:induction false} HatUnfold(t: real, j: int, q: int) returns (w: real)
    ensures w == Pow2Real(j)
    ensures EvalBasis1D(t, j, q, None) == 1.0 - Abs(t * w - q as real)
  {
    w := Pow2Real(j);
  }

  lemma DivScaledVar(a: real, w: real, e: real, wl: real, t: real)
    requires w > 0.0 && e > 0.0 && wl == w * e && t == a / wl
    ensures t * w == a / e
  {
  }

  lemma SubOverDiv(a: real, q: real, e: real, qe: real)
    requires e > 0.0 && qe == q * e
    ensures a / e - q == (a - qe) / e
  {
  }

  lemma AbsIntOverDiv(z: int, e: real)
    requires e > 0.0
    ensures Abs(z as real / e) == IAbs(z) as real / e
  {
    if z < 0 {
      assert (z as real) / e == -((-z) as real / e);
    }
  }

  lemma HatCore(a: int, q: int, ie: int, w: real, e: real, wl: real, t: real, r: real)
    requires ie >= 1 && e == ie as real && w > 0.0 && wl == w * e && t == a as real / wl
    requires r == 1.0 - Abs(t * w - q as real)
    ensures r == 1.0 - IAbs(a - q * ie) as real / e
  {
    var z := a - q * ie;
    DivScaledVar(a as real, w, e, wl, t);
    CastProduct(q, ie);
    SubOverDiv(a as real, q as real, e, (q * ie) as real);
    assert t * w - q as real == z as real / e;
    AbsIntOverDiv(z, e);
  }

  /**
   * The hat `(j, q)` at the point `a / 2^l` of a level `l ≥ j`, in whole
   * numbers: `1 − |a − q·e| / e` with `e = 2^(l − j)`.
   */
  lemma {:induction false} HatAtDyadic(a: int, l: nat, j: nat, q: int) returns (e: nat)
    requires j <= l
    ensures e == Pow2(l - j)
    ensures EvalBasis1D(Centre(l, a), j, q, None) == 1.0 - IAbs(a - q * e) as real / e as real
  {
    var t := Centre(l, a);
    assert t == a as real / Pow2Real(l);
    var w := HatUnfold(t, j, q);
    var er, wl := SplitReal(j, l, w);
    e := Pow2(l - j);
    HatCore(a, q, e, w, er, wl, t, EvalBasis1D(t, j, q, None));
  }

  lemma OneMinusRatio(x: real, e: real)
    requires e > 0.0 && x >= 0.0
    ensures 1.0 - x / e >= 0.0 <==> x <= e
    ensures 1.0 - x / e > 0.0 <==> x < e
    ensures 1.0 - x / e == 0.0 <==> x == e
  {
    DivBound(1.0, x, e);
    assert 1.0 * e == e;
  }

  lemma UnitCore(a: real, w: real, t: real)
    requires w > 0.0 && t == a / w && 0.0 <= a <= w
    ensures 0.0 <= t <= 1.0
    ensures a == 0.0 ==> t == 0.0
    ensures a == w ==> t == 1.0
  {
    DivBound(1.0, a, w);
    assert 1.0 * w == w;
  }

  /** The point `a / 2^l` lies in `[0, 1]` for `0 ≤ a ≤ 2^l`. */
  lemma CentreUnit(l: nat, a: int)
    requires 0 <= a <= Pow2(l)
    ensures 0.0 <= Centre(l, a) <= 1.0
    ensures a == 0 ==> Centre(l, a) == 0.0
    ensures a == Pow2(l) ==> Centre(l, a) == 1.0
  {
    var w := Pow2Real(l);
    var t := Centre(l, a);
    UnitCore(a as real, w, t);
  }

  lemma ScaleCore(a: real, ae: real, w: real, e: real, wl: real)
    requires w > 0.0 && e > 0.0 && wl == w * e && ae == a * e
    ensures ae / wl == a / w
  {
  }

  /** The centre of `(j, p)` named at the finer level `l`: `p·2^(l − j) / 2^l`. */
  lemma {:induction false} CentreScale(j: nat, l: nat, p: int, pe: int, e: int)
    requires j <= l && e == Pow2(l - j) && pe == p * e
    ensures Centre(l, pe) == Centre(j, p)
  {
    var w := Pow2Real(j);
    var er, wl := SplitReal(j, l, w);
    CastProduct(p, e);
    ScaleCore(p as real, pe as real, w, er, wl);
  }

  /** The active basis function of level `j` at the normalised coordinate `t`, as `eval_funct` records it. */
  function Active1(t: real, j: int): ActiveBasis
    requires j >= 1
  {
    var p := ActivePosition(t, j);
    ActiveBasis([j, p], EvalBasis1D(t, j, p, None))
  }

  /** At an even point `a / 2^j` no hat of level `j` is positive: the active one has weight 0 there. */
  lemma ActiveZeroAtEven(a: int, j: nat)
    requires j >= 1 && a % 2 == 0 && 0 <= a <= Pow2(j)
    ensures 0.0 <= Centre(j, a) <= 1.0
    ensures Active1(Centre(j, a), j).weight == 0.0
  {
    var t := Centre(j, a);
    CentreUnit(j, a);
    var q := ActivePosition(t, j);
    ActivePositionValid(t, j);
    var e := HatAtDyadic(a, j, j, q);
    ZeroCore(a, q, e, EvalBasis1D(t, j, q, None));
  }

  lemma ZeroCore(a: int, q: int, e: int, r: real)
    requires e == 1 && a % 2 == 0 && q % 2 == 1
    requires r == 1.0 - IAbs(a - q * e) as real / e as real && r >= 0.0
    ensures r == 0.0
  {
    assert q * e == q;
    OneMinusRatio(IAbs(a - q) as real, 1.0);
  }

  /** At its own centre the active position of level `l` is `p`, with weight 1. */
  lemma ActiveAtCentre(l: nat, p: int)
    requires ValidPair(l, p)
    ensures ActivePosition(Centre(l, p), l) == p
    ensures Active1(Centre(l, p), l).weight == 1.0
  {
    var t := Centre(l, p);
    CentreUnit(l, p);
    HatIsOneIff(t, l, p);
    ActivePositionUnique(t, l, p);
  }

  /** A positive power of two is twice the one below it. */
  lemma Pow2Half(n: nat) returns (h: nat)
    requires n >= 1
    ensures Pow2(n) == 2 * h && Pow2(n) % 2 == 0
  {
    h := Pow2(n - 1);
  }

  lemma EvenProduct(p: int, h: int, e: int, pe: int)
    requires e == 2 * h && pe == p * e
    ensures pe % 2 == 0
  {
    assert pe == 2 * (p * h);
  }

  /** At the centre of `(l, p)` every finer level `j > l` has an active weight of 0. */
  lemma ActiveAboveCentre(l: nat, p: int, j: nat)
    requires ValidPair(l, p) && j > l
    ensures Active1(Centre(l, p), j).weight == 0.0
  {
    var pl, e, pj := Pow2Split(l, j);
    var h := Pow2Half(j - l);
    var pe := p * e;
    CentreScale(l, j, p, pe, e);
    EvenProduct(p, h, e, pe);
    MulLtStrict(p, pl, e);
    MulAtLeast(p, e);
    ActiveZeroAtEven(pe, j);
  }

  // ---------------------------------------------------------------------
  // one dimension: the hats of one line
  // ---------------------------------------------------------------------

  lemma OddCore(p: int, qe: int, e: int, r: real)
    requires p % 2 == 1 && qe % 2 == 0 && e % 2 == 0 && e >= 1
    requires r == 1.0 - IAbs(p - qe) as real / e as real && r >= 0.0
    ensures IAbs(p - qe) < e && (p - qe) % 2 == 1
  {
    OneMinusRatio(IAbs(p - qe) as real, e as real);
  }

  /**
   * At the centre of `(l, p)`, the active hat of a coarser level `j` is
   * `(j, q)`, whose value there is `1 − |z| / e` with `e = 2^(l − j)` and
   * `z = p − q·e` odd and below `e` in size.
   */
  lemma {:induction false} CentreHat(l: nat, p: int, j: nat) returns (q: int, e: nat, z: int)
    requires ValidPair(l, p) && 1 <= j < l
    ensures q == ActivePosition(Centre(l, p), j) && ValidPair(j, q)
    ensures e == Pow2(l - j) && e % 2 == 0 && z == p - q * e
    ensures Active1(Centre(l, p), j).weight == 1.0 - IAbs(z) as real / e as real
    ensures IAbs(z) < e && z % 2 == 1
  {
    var c := Centre(l, p);
    CentreUnit(l, p);
    ActivePositionValid(c, j);
    q := ActivePosition(c, j);
    e := HatAtDyadic(p, l, j, q);
    var h := Pow2Half(l - j);
    var qe := q * e;
    EvenProduct(q, h, e, qe);
    z := p - qe;
    OddCore(p, qe, e, EvalBasis1D(c, j, q, None));
  }

  lemma NeighbourMultiple(q: int, e: int, z: int, pn: int, b: int)
    requires pn - q * e == z && q % 2 == 1
    requires (z == e && b == q + 1) || (z == -e && b == q - 1)
    ensures pn == b * e && b % 2 == 0
  {
  }

  /** `b·e` within `[0, 2^j·e]` puts `b` within `[0, 2^j]`. */
  lemma MultipleRange(b: int, e: int, pj: int, pl: int, pn: int)
    requires e >= 1 && pl == pj * e && pn == b * e && 0 <= pn <= pl
    ensures 0 <= b <= pj
  {
    MulCancelLe(b, pj, e);
    if b < 0 {
      MulLtStrict(b, 0, e);
    }
  }

  /**
   * At the neighbour `pn = p ± 1` of the centre of `(l, p)`, the active hat
   * of level `j < l` is still `(j, q)`, or it has weight 0; either way its
   * weight is `1 − |zn| / e` with `zn = pn − q·e`.
   */
  lemma {:induction false} NeighbourHat(l: nat, p: int, j: nat, pn: int) returns (q: int, e: nat, zn: int)
    requires ValidPair(l, p) && 1 <= j < l && (pn == p - 1 || pn == p + 1)
    ensures q == ActivePosition(Centre(l, p), j) && e == Pow2(l - j) && zn == pn - q * e
    ensures Active1(Centre(l, pn), j).weight == 1.0 - IAbs(zn) as real / e as real
    ensures Active1(Centre(l, pn), j).weight != 0.0 ==> Active1(Centre(l, pn), j).pair == [j, q]
  {
    var z;
    q, e, z := CentreHat(l, p, j);
    var cn := Centre(l, pn);
    CentreUnit(l, pn);
    var e2 := HatAtDyadic(pn, l, j, q);
    zn := pn - q * e;
    OneMinusRatio(IAbs(zn) as real, e as real);
    if IAbs(zn) < e {
      ActivePositionUnique(cn, j, q);
    } else {
      var b := if zn == e then q + 1 else q - 1;
      NeighbourMultiple(q, e, zn, pn, b);
      var pj, pe, pl := Pow2Split(j, l);
      MultipleRange(b, e, pj, pl, pn);
      CentreScale(j, l, b, pn, e);
      ActiveZeroAtEven(b, j);
    }
  }

  /** What the active hat of level `j` at `t` adds to the line through `node` in dimension `d`. */
  function Contrib(h: Values, node: seq<int>, d: nat, t: real, j: int): real
    requires 2 * d <= |node| && j >= 1
  {
    var a := Active1(t, j);
    Lookup(h, Insert(node, d, a.pair)) * a.weight
  }

  /** A contribution whose hat is `(j, q)` unless its weight is 0 is `h` at `(j, q)` times that weight. */
  lemma ContribIs(h: Values, node: seq<int>, d: nat, t: real, j: int, q: int, v: real, w: real)
    requires 2 * d <= |node| && j >= 1
    requires v == Lookup(h, Insert(node, d, [j, q])) && w == Active1(t, j).weight
    requires w != 0.0 ==> Active1(t, j).pair == [j, q]
    ensures Contrib(h, node, d, t, j) == v * w
  {
  }

  lemma ZeroContrib(h: Values, node: seq<int>, d: nat, t: real, j: int)
    requires 2 * d <= |node| && j >= 1 && Active1(t, j).weight == 0.0
    ensures Contrib(h, node, d, t, j) == 0.0
  {
  }

  lemma AbsAround(z: int, z1: int, z2: int)
    requires z % 2 == 1 && z1 == z - 1 && z2 == z + 1
    ensures IAbs(z1) + IAbs(z2) == 2 * IAbs(z)
  {
  }

  lemma MidCore(v: real, a: nat, b: nat, c: nat, e: real, wc: real, wl: real, wr: real, xc: real, xl: real, xr: real)
    requires e > 0.0 && a + b == 2 * c
    requires wc == 1.0 - c as real / e && wl == 1.0 - a as real / e && wr == 1.0 - b as real / e
    requires xc == v * wc && xl == v * wl && xr == v * wr
    ensures xc == 0.5 * xl + 0.5 * xr
  {
    assert (a as real / e) + (b as real / e) == 2.0 * (c as real / e);
  }

  /**
   * The contribution of a coarser level `j` at the centre of `(l, p)` is the
   * mean of its contributions at the two neighbours `p − 1` and `p + 1`:
   * every hat of level `j` is linear across that stretch.
   */
  lemma {:induction false} ContribMidpoint(h: Values, node: seq<int>, d: nat, l: nat, p: int, j: nat)
    requires ValidPair(l, p) && 1 <= j < l && 2 * d <= |node|
    ensures Contrib(h, node, d, Centre(l, p), j) ==
      0.5 * Contrib(h, node, d, Centre(l, p - 1), j) + 0.5 * Contrib(h, node, d, Centre(l, p + 1), j)
  {
    var q, e, z := CentreHat(l, p, j);
    var q1, e1, z1 := NeighbourHat(l, p, j, p - 1);
    var q2, e2, z2 := NeighbourHat(l, p, j, p + 1);
    AbsAround(z, z1, z2);
    var v := Lookup(h, Insert(node, d, [j, q]));
    var wc, wl, wr := Active1(Centre(l, p), j).weight, Active1(Centre(l, p - 1), j).weight,
      Active1(Centre(l, p + 1), j).weight;
    ContribIs(h, node, d, Centre(l, p), j, q, v, wc);
    ContribIs(h, node, d, Centre(l, p - 1), j, q, v, wl);
    ContribIs(h, node, d, Centre(l, p + 1), j, q, v, wr);
    var xc, xl, xr := Contrib(h, node, d, Centre(l, p), j), Contrib(h, node, d, Centre(l, p - 1), j),
      Contrib(h, node, d, Centre(l, p + 1), j);
    MidCore(v, IAbs(z1), IAbs(z2), IAbs(z), e as real, wc, wl, wr, xc, xl, xr);
  }

  /** The active hats of levels `1..n` at `t`, weighted by `h`, along dimension `d` of `node`. */
  function LineSum(h: Values, node: seq<int>, d: nat, t: real, n: nat): real
    requires 2 * d <= |node|
  {
    if n == 0 then 0.0 else LineSum(h, node, d, t, n - 1) + Contrib(h, node, d, t, n)
  }

  lemma {:induction false} MidpointSum(h: Values, node: seq<int>, d: nat, l: nat, p: int, n: nat)
    requires ValidPair(l, p) && n < l && 2 * d <= |node|
    ensures LineSum(h, node, d, Centre(l, p), n) ==
      0.5 * LineSum(h, node, d, Centre(l, p - 1), n) + 0.5 * LineSum(h, node, d, Centre(l, p + 1), n)
  {
    if n > 0 {
      MidpointSum(h, node, d, l, p, n - 1);
      ContribMidpoint(h, node, d, l, p, n);
    }
  }

  /** Levels above `l` add nothing at the centre of `(l, p)`. */
  lemma {:induction false} LineSumAbove(h: Values, node: seq<int>, d: nat, l: nat, p: int, n: nat)
    requires ValidPair(l, p) && n >= l && 2 * d <= |node|
    ensures LineSum(h, node, d, Centre(l, p), n) == LineSum(h, node, d, Centre(l, p), l)
  {
    if n > l {
      LineSumAbove(h, node, d, l, p, n - 1);
      ActiveAboveCentre(l, p, n);
      ZeroContrib(h, node, d, Centre(l, p), n);
    }
  }

  /** On the boundary, 0 and 1, every active weight is 0. */
  lemma {:induction false} BoundarySum(h: Values, node: seq<int>, d: nat, n: nat)
    requires 2 * d <= |node|
    ensures LineSum(h, node, d, 0.0, n) == 0.0
    ensures LineSum(h, node, d, 1.0, n) == 0.0
  {
    if n > 0 {
      BoundarySum(h, node, d, n - 1);
      var half := Pow2Half(n);
      CentreUnit(n, 0);
      CentreUnit(n, Pow2(n));
      ActiveZeroAtEven(0, n);
      ActiveZeroAtEven(Pow2(n), n);
      ZeroContrib(h, node, d, 0.0, n);
      ZeroContrib(h, node, d, 1.0, n);
    }
  }

  lemma InsertLevel(node: seq<int>, d: nat, pair: seq<int>)
    requires 2 * d <= |node| && |pair| == 2
    ensures Insert(node, d, pair)[2 * d] == pair[0]
    ensures Insert(node, d, pair) == Insert(node, d, [pair[0], pair[1]])
  {
    assert pair == [pair[0], pair[1]];
  }

  /** Half the nodal value of a parent `par` on the line, or 0 for a parent on the boundary. */
  function ParentPart(h: Values, node: seq<int>, d: nat, par: seq<int>): real
    requires 2 * d <= |node| && |par| == 2 && par[0] >= 0
  {
    InsertLevel(node, d, par);
    if par[0] != 0 then 0.5 * NodalAt(h, Insert(node, d, par), d) else 0.0
  }

  /**
   * One-dimensional exactness: at the centre of `(l, p)`, the active hats of
   * levels `1..l` along dimension `d`, weighted by the hierarchical values
   * `h`, add up to the value `NodalAt` that dehierarchizing `d` gives the
   * point.
   */
  lemma {:induction false} LineExact(h: Values, node: seq<int>, d: nat, l: nat, p: int)
    requires ValidPair(l, p) && 2 * d <= |node|
    ensures HasLevel(Insert(node, d, [l, p]), d)
    ensures LineSum(h, node, d, Centre(l, p), l) == NodalAt(h, Insert(node, d, [l, p]), d)
    decreases l, 1
  {
    TopLevel(h, node, d, l, p);
    NodalAtInsert(h, node, d, l, p);
    MidpointSum(h, node, d, l, p, l - 1);
    LeftHalf(h, node, d, l, p);
    RightHalf(h, node, d, l, p);
  }

  /** `NodalAt` at the point `(l, p)` of the line: its own value and the parts of its two parents. */
  lemma NodalAtInsert(h: Values, node: seq<int>, d: nat, l: nat, p: int)
    requires ValidPair(l, p) && 2 * d <= |node|
    ensures HasLevel(Insert(node, d, [l, p]), d)
    ensures NodalAt(h, Insert(node, d, [l, p]), d) == Lookup(h, Insert(node, d, [l, p]))
      + ParentPart(h, node, d, LeftParent(l, p)) + ParentPart(h, node, d, RightParent(l, p))
  {
    InsertAt(node, d, l, p);
    ParentKeyIsInsert(node, d, l, p);
    InsertLevel(node, d, LeftParent(l, p));
    InsertLevel(node, d, RightParent(l, p));
  }

  /** The top level `l` adds the point's own hierarchical value to the line sum at its centre. */
  lemma TopLevel(h: Values, node: seq<int>, d: nat, l: nat, p: int)
    requires ValidPair(l, p) && 2 * d <= |node|
    ensures LineSum(h, node, d, Centre(l, p), l) ==
      LineSum(h, node, d, Centre(l, p), l - 1) + Lookup(h, Insert(node, d, [l, p]))
  {
    var c := Centre(l, p);
    ActiveAtCentre(l, p);
    ContribIs(h, node, d, c, l, p, Lookup(h, Insert(node, d, [l, p])), 1.0);
  }

  /** The left neighbour's line sum below level `l` is the left parent's part of `NodalAt`. */
  lemma {:induction false} LeftHalf(h: Values, node: seq<int>, d: nat, l: nat, p: int)
    requires ValidPair(l, p) && 2 * d <= |node|
    ensures 0.5 * LineSum(h, node, d, Centre(l, p - 1), l - 1) == ParentPart(h, node, d, LeftParent(l, p))
    decreases l, 0
  {
    var lp := LeftParent(l, p);
    LeftParentSpec(l, p);
    InsertLevel(node, d, lp);
    if lp[0] == 0 {
      CentreUnit(l, 0);
      BoundarySum(h, node, d, l - 1);
    } else {
      var e := Pow2(l - lp[0]);
      CentreScale(lp[0], l, lp[1], p - 1, e);
      LineSumAbove(h, node, d, lp[0], lp[1], l - 1);
      LineExact(h, node, d, lp[0], lp[1]);
    }
  }

  /** The right neighbour's line sum below level `l` is the right parent's part of `NodalAt`. */
  lemma {:induction false} RightHalf(h: Values, node: seq<int>, d: nat, l: nat, p: int)
    requires ValidPair(l, p) && 2 * d <= |node|
    ensures 0.5 * LineSum(h, node, d, Centre(l, p + 1), l - 1) == ParentPart(h, node, d, RightParent(l, p))
    decreases l, 0
  {
    var rp := RightParent(l, p);
    RightParentSpec(l, p);
    InsertLevel(node, d, rp);
    if rp[0] == 0 {
      CentreUnit(l, Pow2(l));
      BoundarySum(h, node, d, l - 1);
    } else {
      var e := Pow2(l - rp[0]);
      CentreScale(rp[0], l, rp[1], p + 1, e);
      LineSumAbove(h, node, d, rp[0], rp[1], l - 1);
      LineExact(h, node, d, rp[0], rp[1]);
    }
  }

  // ---------------------------------------------------------------------
  // the table of active hats at a grid point
  // ---------------------------------------------------------------------

  /**
   * `table` is the table `eval_funct` fills at the grid point `k` of an
   * `n`-dimensional grid of level `level`: row `i` holds the active hats of
   * levels `1..level` at the centre of `k`'s pair in dimension `i`.
   */
  predicate AtGridPoint(table: seq<seq<ActiveBasis>>, k: seq<int>, n: nat, level: nat)
  {
    n >= 1 && Admissible(k, n, level) && |k| == 2 * n && |table| == n &&
    forall i :: 0 <= i < n ==>
      |table[i]| == level &&
      forall j :: 0 <= j < level ==> table[i][j] == Active1(Centre(k[2 * i], k[2 * i + 1]), j + 1)
  }

  /** Every pair of an admissible index is valid, with a level of at most `level`. */
  lemma AdmissiblePair(k: seq<int>, n: nat, level: nat, i: nat)
    requires Admissible(k, n, level) && i < n
    ensures |k| == 2 * n && ValidPair(k[2 * i], k[2 * i + 1]) && k[2 * i] <= level
  {
    WellFormedLength(k, n);
    var node := Remove(k, i);
    var l, p := k[2 * i], k[2 * i + 1];
    InsertRemove(k, i);
    InsertAdmissible(node, n, level, i, l, p);
    LevelSumAtLeastDim(node, n - 1);
  }

  /** The entry of level `j` in row `i` of the table. */
  lemma TableEntry(table: seq<seq<ActiveBasis>>, k: seq<int>, n: nat, level: nat, i: nat, j: int)
    requires AtGridPoint(table, k, n, level) && i < n && 1 <= j <= level
    ensures table[i][j - 1] == Active1(Centre(k[2 * i], k[2 * i + 1]), j)
    ensures |table[i][j - 1].pair| == 2 && ValidPair(table[i][j - 1].pair[0], table[i][j - 1].pair[1])
    ensures table[i][j - 1].pair[0] == j
  {
    AdmissiblePair(k, n, level, i);
    CentreUnit(k[2 * i], k[2 * i + 1]);
    ActivePositionValid(Centre(k[2 * i], k[2 * i + 1]), j);
  }

  /** `u` picks, in each of its dimensions, a level from 1 up to `k`'s own. */
  predicate InBox(u: seq<int>, k: seq<int>)
  {
    2 * |u| <= |k| && forall i :: 0 <= i < |u| ==> 1 <= u[i] <= k[2 * i]
  }

  lemma BoxIndexes(table: seq<seq<ActiveBasis>>, k: seq<int>, n: nat, level: nat, u: seq<int>)
    requires AtGridPoint(table, k, n, level) && |u| <= n && InBox(u, k)
    ensures Indexes(table, u) && ValidPicks(table, u)
  {
    forall i | 0 <= i < |u|
      ensures u[i] <= |table[i]| && |table[i][u[i] - 1].pair| == 2
      ensures table[i][u[i] - 1].pair[0] == u[i]
      ensures ValidPair(table[i][u[i] - 1].pair[0], table[i][u[i] - 1].pair[1])
    {
      AdmissiblePair(k, n, level, i);
      TableEntry(table, k, n, level, i, u[i]);
    }
  }

  lemma {:induction false} KeyUpToLength(table: seq<seq<ActiveBasis>>, hs: seq<int>, n: nat)
    requires ValidPicks(table, hs) && n <= |hs|
    ensures |KeyUpTo(table, hs, n)| == 2 * n
  {
    if n > 0 {
      KeyUpToLength(table, hs, n - 1);
    }
  }

  /** The picks of the first `n` dimensions depend only on the first `n` levels. */
  lemma {:induction false} KeyUpToPrefix(table: seq<seq<ActiveBasis>>, a: seq<int>, b: seq<int>, n: nat)
    requires Indexes(table, a) && Indexes(table, b) && n <= |a| && n <= |b| && a[..n] == b[..n]
    ensures KeyUpTo(table, a, n) == KeyUpTo(table, b, n)
    ensures WeightUpTo(table, a, n) == WeightUpTo(table, b, n)
  {
    if n > 0 {
      assert a[..n - 1] == a[..n][..n - 1] && b[..n - 1] == b[..n][..n - 1];
      assert a[n - 1] == a[..n][n - 1] && b[n - 1] == b[..n][n - 1];
      KeyUpToPrefix(table, a, b, n - 1);
    }
  }

  /**
   * The grid point that `u` picks: the active pairs of its levels in its
   * first `|u|` dimensions, then `k`'s own pairs.
   */
  function BoxKey(table: seq<seq<ActiveBasis>>, k: seq<int>, u: seq<int>): (r: seq<int>)
    requires ValidPicks(table, u) && 2 * |u| <= |k|
    ensures |r| == |k|
  {
    KeyUpToLength(table, u, |u|);
    KeyUpTo(table, u, |u|) + k[2 * |u|..]
  }

  /** `BoxKey` without the pair of dimension `|u|`: the line the hats of the next dimension run along. */
  function BoxNode(table: seq<seq<ActiveBasis>>, k: seq<int>, u: seq<int>): (r: seq<int>)
    requires ValidPicks(table, u) && 2 * |u| + 2 <= |k|
    ensures |r| == |k| - 2 && 2 * |u| <= |r|
  {
    KeyUpToLength(table, u, |u|);
    KeyUpTo(table, u, |u|) + k[2 * |u| + 2..]
  }

  /** `k`'s own pair of dimension `|u|`, put back on the line, gives `BoxKey(u)`. */
  lemma BoxKeyOwn(table: seq<seq<ActiveBasis>>, k: seq<int>, u: seq<int>)
    requires ValidPicks(table, u) && 2 * |u| + 2 <= |k|
    ensures BoxKey(table, k, u) == Insert(BoxNode(table, k, u), |u|, [k[2 * |u|], k[2 * |u| + 1]])
  {
    var m := |u|;
    KeyUpToLength(table, u, m);
    assert k[2 * m..] == [k[2 * m], k[2 * m + 1]] + k[2 * m + 2..];
  }

  lemma PicksPrefix(table: seq<seq<ActiveBasis>>, u: seq<int>, j: int)
    requires ValidPicks(table, u + [j])
    ensures ValidPicks(table, u) && (u + [j])[..|u|] == u && (u + [j])[|u|] == j
  {
    var v := u + [j];
    forall d | 0 <= d < |u| ensures u[d] == v[d] {
    }
  }

  /**
   * Extending `u` by the level `j` puts the pair picked for level `j` of
   * dimension `|u|` on the line, and multiplies in its weight.
   */
  lemma BoxKeyNext(table: seq<seq<ActiveBasis>>, k: seq<int>, u: seq<int>, j: int)
    requires ValidPicks(table, u + [j]) && 2 * |u| + 2 <= |k|
    requires |u| < |table| && 1 <= j <= |table[|u|]|
    ensures ValidPicks(table, u)
    ensures BoxKey(table, k, u + [j]) == Insert(BoxNode(table, k, u), |u|, table[|u|][j - 1].pair)
    ensures WeightUpTo(table, u + [j], |u| + 1) == WeightUpTo(table, u, |u|) * table[|u|][j - 1].weight
  {
    PicksPrefix(table, u, j);
    KeyNext(table, k, u, j);
    WeightNextPick(table, u, j);
  }

  /** The key half of `BoxKeyNext`. */
  lemma KeyNext(table: seq<seq<ActiveBasis>>, k: seq<int>, u: seq<int>, j: int)
    requires ValidPicks(table, u + [j]) && ValidPicks(table, u) && 2 * |u| + 2 <= |k|
    requires (u + [j])[..|u|] == u && (u + [j])[|u|] == j
    ensures BoxKey(table, k, u + [j]) == Insert(BoxNode(table, k, u), |u|, table[|u|][j - 1].pair)
  {
    var m, v := |u|, u + [j];
    KeyUpToPrefix(table, v, u, m);
    KeyUpToLength(table, u, m);
    var key, pair, tail := KeyUpTo(table, u, m), table[m][j - 1].pair, k[2 * m + 2..];
    assert KeyUpTo(table, v, m + 1) == key + pair;
    assert BoxKey(table, k, v) == key + pair + tail;
    assert BoxNode(table, k, u) == key + tail;
    InsertSplit(key, tail, m, pair);
  }

  /** The weight half of `BoxKeyNext`. */
  lemma WeightNextPick(table: seq<seq<ActiveBasis>>, u: seq<int>, j: int)
    requires ValidPicks(table, u + [j]) && ValidPicks(table, u)
    requires (u + [j])[..|u|] == u && (u + [j])[|u|] == j
    ensures WeightUpTo(table, u + [j], |u| + 1) == WeightUpTo(table, u, |u|) * table[|u|][j - 1].weight
  {
    var m, v := |u|, u + [j];
    KeyUpToPrefix(table, v, u, m);
    var w, x := PickStep(table, v, m);
  }

  /** One more pick appends its pair to the key and multiplies in its weight. */
  lemma PickStep(table: seq<seq<ActiveBasis>>, hs: seq<int>, m: nat) returns (w: real, x: real)
    requires Indexes(table, hs) && m < |hs|
    ensures KeyUpTo(table, hs, m + 1) == KeyUpTo(table, hs, m) + table[m][hs[m] - 1].pair
    ensures w == WeightUpTo(table, hs, m + 1) && x == WeightUpTo(table, hs, m)
    ensures w == x * table[m][hs[m] - 1].weight
  {
    w, x := WeightUpTo(table, hs, m + 1), WeightUpTo(table, hs, m);
  }

  // ---------------------------------------------------------------------
  // summing out one dimension
  // ---------------------------------------------------------------------

  /** The term of `u` with `k`'s own pairs past `|u|`: the point `u` picks, times the weights of its picks. */
  function Part(g: Values, table: seq<seq<ActiveBasis>>, k: seq<int>, u: seq<int>): real
  {
    if ValidPicks(table, u) && 2 * |u| <= |k| then
      Lookup(g, BoxKey(table, k, u)) * WeightUpTo(table, u, |u|)
    else 0.0
  }

  function PartSum(g: Values, table: seq<seq<ActiveBasis>>, k: seq<int>, us: seq<seq<int>>): real
  {
    if us == [] then 0.0 else Part(g, table, k, us[0]) + PartSum(g, table, k, us[1..])
  }

  lemma {:induction false} PartSumAppend(g: Values, table: seq<seq<ActiveBasis>>, k: seq<int>, a: seq<seq<int>>, b: seq<seq<int>>)
    ensures PartSum(g, table, k, a + b) == PartSum(g, table, k, a) + PartSum(g, table, k, b)
  {
    if a != [] {
      assert (a + b)[1..] == a[1..] + b;
      PartSumAppend(g, table, k, a[1..], b);
    } else {
      assert a + b == b;
    }
  }

  /** The one-level vectors `[1], …, [c]`. */
  function Singles(c: int): seq<seq<int>>
    decreases c
  {
    if c <= 0 then [] else Singles(c - 1) + [[c]]
  }

  lemma {:induction false} SinglesMember(c: int, y: seq<int>)
    ensures y in Singles(c) <==> |y| == 1 && 1 <= y[0] <= c
    decreases c
  {
    if c > 0 {
      SinglesMember(c - 1, y);
      assert y in Singles(c) <==> y in Singles(c - 1) || y == [c];
      if |y| == 1 && y[0] == c {
        assert y == [c];
      }
    }
  }

  lemma PrependAllSplit(x: seq<int>, a: seq<seq<int>>, c: int)
    ensures PrependAll(x, a + [[c]]) == PrependAll(x, a) + [x + [c]]
  {
    PrependAllAt(x, a + [[c]]);
    PrependAllAt(x, a);
  }

  lemma PicksExtend(table: seq<seq<ActiveBasis>>, u: seq<int>, j: int)
    requires ValidPicks(table, u) && |u| < |table| && 1 <= j <= |table[|u|]|
    requires |table[|u|][j - 1].pair| == 2 && table[|u|][j - 1].pair[0] == j
    requires ValidPair(table[|u|][j - 1].pair[0], table[|u|][j - 1].pair[1])
    ensures ValidPicks(table, u + [j])
  {
    var v := u + [j];
    forall d | 0 <= d < |u| ensures v[d] == u[d] {
    }
  }

  lemma RowPick(table: seq<seq<ActiveBasis>>, u: seq<int>, t: real, c: int)
    requires ValidPicks(table, u) && |u| < |table| && 1 <= c <= |table[|u|]| && 0.0 <= t <= 1.0
    requires table[|u|][c - 1] == Active1(t, c)
    ensures ValidPicks(table, u + [c])
  {
    ActivePositionValid(t, c);
    PicksExtend(table, u, c);
  }

  lemma PartIs(g: Values, table: seq<seq<ActiveBasis>>, k: seq<int>, v: seq<int>, key: seq<int>, x: real, w: real)
    requires ValidPicks(table, v) && 2 * |v| <= |k|
    requires key == BoxKey(table, k, v) && x == Lookup(g, key) && w == WeightUpTo(table, v, |v|)
    ensures Part(g, table, k, v) == x * w
  {
  }

  lemma RowCore(ps: real, part: real, w: real, ls: real, ctb: real, v: real, aw: real, w2: real, lsc: real)
    requires ps == w * ls && w2 == w * aw && part == v * w2 && ctb == v * aw && lsc == ls + ctb
    ensures ps + part == w * lsc
  {
  }

  /** The weight of `u ++ [j]` is the weight `w` of `u` times the weight `aw` of the new pick. */
  lemma WeightNext(table: seq<seq<ActiveBasis>>, k: seq<int>, u: seq<int>, j: int, w: real) returns (aw: real, w2: real)
    requires ValidPicks(table, u) && ValidPicks(table, u + [j]) && 2 * |u| + 2 <= |k|
    requires |u| < |table| && 1 <= j <= |table[|u|]| && w == WeightUpTo(table, u, |u|)
    ensures aw == table[|u|][j - 1].weight
    ensures w2 == WeightUpTo(table, u + [j], |u| + 1) && w2 == w * aw
  {
    BoxKeyNext(table, k, u, j);
    aw, w2 := table[|u|][j - 1].weight, WeightUpTo(table, u + [j], |u| + 1);
  }

  lemma RowSplit(g: Values, table: seq<seq<ActiveBasis>>, k: seq<int>, u: seq<int>, c: int)
    requires c >= 1
    ensures PartSum(g, table, k, PrependAll(u, Singles(c))) ==
      PartSum(g, table, k, PrependAll(u, Singles(c - 1))) + Part(g, table, k, u + [c])
  {
    var s0 := Singles(c - 1);
    assert Singles(c) == s0 + [[c]];
    PrependAllSplit(u, s0, c);
    PartSumAppend(g, table, k, PrependAll(u, s0), [u + [c]]);
    assert [u + [c]][1..] == [];
  }

  /** The new point's value `x` is shared by its term in the row and its contribution to the line sum. */
  lemma PartContrib(g: Values, table: seq<seq<ActiveBasis>>, k: seq<int>, u: seq<int>, t: real, c: int, aw: real, w2: real)
    returns (x: real)
    requires ValidPicks(table, u) && ValidPicks(table, u + [c]) && 2 * |u| + 2 <= |k| && 0.0 <= t <= 1.0
    requires |u| < |table| && 1 <= c <= |table[|u|]| && table[|u|][c - 1] == Active1(t, c)
    requires aw == table[|u|][c - 1].weight && w2 == WeightUpTo(table, u + [c], |u| + 1)
    ensures Part(g, table, k, u + [c]) == x * w2
    ensures Contrib(g, BoxNode(table, k, u), |u|, t, c) == x * aw
  {
    var node := BoxNode(table, k, u);
    var a := Active1(t, c);
    BoxKeyNext(table, k, u, c);
    x := Lookup(g, Insert(node, |u|, a.pair));
    PartIs(g, table, k, u + [c], Insert(node, |u|, a.pair), x, w2);
    ContribIs(g, node, |u|, t, c, a.pair[1], x, aw);
  }

  lemma RowStep(g: Values, table: seq<seq<ActiveBasis>>, k: seq<int>, u: seq<int>, t: real, c: int, ps: real, w: real, ls: real, lsc: real)
    requires ValidPicks(table, u) && 2 * |u| + 2 <= |k| && 0.0 <= t <= 1.0
    requires |u| < |table| && 1 <= c <= |table[|u|]| && table[|u|][c - 1] == Active1(t, c)
    requires ps == PartSum(g, table, k, PrependAll(u, Singles(c - 1))) && w == WeightUpTo(table, u, |u|)
    requires ls == LineSum(g, BoxNode(table, k, u), |u|, t, c - 1) && ps == w * ls
    requires lsc == LineSum(g, BoxNode(table, k, u), |u|, t, c)
    ensures PartSum(g, table, k, PrependAll(u, Singles(c))) == w * lsc
  {
    RowPick(table, u, t, c);
    var aw, w2 := WeightNext(table, k, u, c, w);
    RowSplit(g, table, k, u, c);
    var x := PartContrib(g, table, k, u, t, c, aw, w2);
    RowCore(ps, Part(g, table, k, u + [c]), w, ls, Contrib(g, BoxNode(table, k, u), |u|, t, c), x, aw, w2, lsc);
  }

  /**
   * One row of a box: the vectors `u ++ [j]` for `j = 1..c`, when row `|u|`
   * of the table holds the active hats at `t`, add up to the weight of `u`
   * times the line sum of levels `1..c` through `u`'s point.
   */
  lemma {:induction false} RowSum(g: Values, table: seq<seq<ActiveBasis>>, k: seq<int>, u: seq<int>, t: real, c: nat, w: real, ls: real)
    requires ValidPicks(table, u) && 2 * |u| + 2 <= |k| && 0.0 <= t <= 1.0
    requires |u| < |table| && c <= |table[|u|]|
    requires forall j :: 0 <= j < c ==> table[|u|][j] == Active1(t, j + 1)
    requires w == WeightUpTo(table, u, |u|) && ls == LineSum(g, BoxNode(table, k, u), |u|, t, c)
    ensures PartSum(g, table, k, PrependAll(u, Singles(c))) == w * ls
  {
    if c == 0 {
      assert PrependAll(u, Singles(c)) == [];
    } else {
      var ls0 := LineSum(g, BoxNode(table, k, u), |u|, t, c - 1);
      RowSum(g, table, k, u, t, c - 1, w, ls0);
      assert table[|u|][c - 1] == Active1(t, c);
      RowStep(g, table, k, u, t, c, PartSum(g, table, k, PrependAll(u, Singles(c - 1))), w, ls0, ls);
    }
  }

  // ---------------------------------------------------------------------
  // the points a box picks
  // ---------------------------------------------------------------------

  /** Lowering the level of one pair of an admissible index, to any valid pair, keeps it admissible. */
  lemma AdmissibleLower(node: seq<int>, dim: nat, level: int, d: nat, l: int, p: int, j: int, q: int)
    requires 1 <= dim && d < dim && |node| == 2 * dim - 2
    requires Admissible(Insert(node, d, [l, p]), dim, level) && ValidPair(j, q) && j <= l
    ensures Admissible(Insert(node, d, [j, q]), dim, level)
  {
    assert |node| == 2 * (dim - 1);
    InsertAdmissible(node, dim, level, d, l, p);
    InsertAdmissible(node, dim, level, d, j, q);
  }

  /** Every point a box picks is a point of the grid: its levels are at most those of `k`. */
  lemma {:induction false} BoxKeyAdmissible(table: seq<seq<ActiveBasis>>, k: seq<int>, n: nat, level: nat, u: seq<int>)
    requires AtGridPoint(table, k, n, level) && |u| <= n && InBox(u, k) && ValidPicks(table, u)
    ensures Admissible(BoxKey(table, k, u), n, level)
    decreases |u|
  {
    if u == [] {
      assert BoxKey(table, k, u) == k;
    } else {
      var m := |u| - 1;
      var u', j := u[..m], u[m];
      assert u == u' + [j];
      PicksPrefix(table, u', j);
      BoxKeyAdmissible(table, k, n, level, u');
      AdmissiblePair(k, n, level, m);
      TableEntry(table, k, n, level, m, j);
      BoxKeyOwn(table, k, u');
      BoxKeyNext(table, k, u', j);
      var pair := table[m][j - 1].pair;
      assert pair == [j, pair[1]];
      AdmissibleLower(BoxNode(table, k, u'), n, level, m, k[2 * m], k[2 * m + 1], j, pair[1]);
    }
  }

  lemma SwapCore(a: real, w: real, ls: real, x: real)
    requires a == w * ls && x == ls
    ensures a == x * w
  {
  }

  lemma RowNodalCore(g: Values, table: seq<seq<ActiveBasis>>, k: seq<int>, u: seq<int>, l: nat, p: int)
    requires ValidPicks(table, u) && 2 * |u| + 2 <= |k| && l == k[2 * |u|] && p == k[2 * |u| + 1] && ValidPair(l, p)
    requires |u| < |table| && l <= |table[|u|]|
    requires forall j :: 0 <= j < l ==> table[|u|][j] == Active1(Centre(l, p), j + 1)
    requires BoxKey(table, k, u) in g
    ensures PartSum(g, table, k, PrependAll(u, Singles(l))) == Part(DehierarchizeDim(g, |u|), table, k, u)
  {
    var m := |u|;
    var t := Centre(l, p);
    CentreUnit(l, p);
    var node := BoxNode(table, k, u);
    var w := WeightUpTo(table, u, m);
    var ls := LineSum(g, node, m, t, l);
    RowSum(g, table, k, u, t, l, w, ls);
    LineExact(g, node, m, l, p);
    BoxKeyOwn(table, k, u);
    var key := BoxKey(table, k, u);
    var g' := DehierarchizeDim(g, m);
    var x := g'[key];
    assert x == NodalAt(g, key, m);
    PartIs(g', table, k, u, key, x, w);
    SwapCore(PartSum(g, table, k, PrependAll(u, Singles(l))), w, ls, x);
  }

  /**
   * Summing the row of dimension `|u|` through `u`'s point with hierarchical
   * values gives the nodal value, in that dimension, of the point `u` picks.
   */
  lemma RowNodal(g: Values, table: seq<seq<ActiveBasis>>, k: seq<int>, n: nat, level: nat, u: seq<int>)
    requires AtGridPoint(table, k, n, level) && |u| < n && InBox(u, k) && ValidPicks(table, u)
    requires forall key :: key in g <==> Admissible(key, n, level)
    ensures PartSum(g, table, k, PrependAll(u, Singles(k[2 * |u|]))) == Part(DehierarchizeDim(g, |u|), table, k, u)
  {
    var m := |u|;
    var l, p := k[2 * m], k[2 * m + 1];
    AdmissiblePair(k, n, level, m);
    forall j | 0 <= j < l
      ensures table[m][j] == Active1(Centre(l, p), j + 1)
    {
      TableEntry(table, k, n, level, m, j + 1);
    }
    BoxKeyAdmissible(table, k, n, level, u);
    RowNodalCore(g, table, k, u, l, p);
  }

  // ---------------------------------------------------------------------
  // the box below a grid point
  // ---------------------------------------------------------------------

  /** The level vectors of length `m` that stay, in every dimension, at or below the levels of `k`. */
  function Box(k: seq<int>, m: nat): seq<seq<int>>
    requires 2 * m <= |k|
  {
    if m == 0 then [[]] else Cross(Box(k, m - 1), Singles(k[2 * (m - 1)]))
  }

  lemma InBoxAppend(x: seq<int>, k: seq<int>, c: int)
    requires InBox(x, k) && 2 * |x| + 2 <= |k| && 1 <= c <= k[2 * |x|]
    ensures InBox(x + [c], k)
  {
    var y := x + [c];
    forall d | 0 <= d < |y| ensures 1 <= y[d] <= k[2 * d] {
      if d < |x| {
        assert y[d] == x[d];
      }
    }
  }

  lemma InBoxPrefix(y: seq<int>, k: seq<int>)
    requires InBox(y, k) && |y| >= 1
    ensures InBox(y[..|y| - 1], k) && 1 <= y[|y| - 1] <= k[2 * (|y| - 1)]
    ensures y == y[..|y| - 1] + [y[|y| - 1]]
  {
    var x := y[..|y| - 1];
    forall d | 0 <= d < |x| ensures 1 <= x[d] <= k[2 * d] {
      assert x[d] == y[d];
    }
  }

  lemma {:induction false} BoxMemberOut(k: seq<int>, m: nat, y: seq<int>)
    requires 2 * m <= |k| && y in Box(k, m)
    ensures |y| == m && InBox(y, k)
  {
    if m > 0 {
      var x, s := CrossPick(Box(k, m - 1), Singles(k[2 * (m - 1)]), y);
      BoxMemberOut(k, m - 1, x);
      SinglesMember(k[2 * (m - 1)], s);
      assert s == [s[0]];
      InBoxAppend(x, k, s[0]);
    }
  }

  /** An entry of `cross(a, b)` splits into an entry of `a` followed by an entry of `b`. */
  lemma CrossPick(a: seq<seq<int>>, b: seq<seq<int>>, y: seq<int>) returns (x: seq<int>, s: seq<int>)
    requires y in Cross(a, b)
    ensures x in a && s in b && y == x + s
  {
    var n :| 0 <= n < |Cross(a, b)| && Cross(a, b)[n] == y;
    var i, j := CrossElement(a, b, n);
    x, s := a[i], b[j];
  }

  lemma {:induction false} BoxMemberIn(k: seq<int>, m: nat, y: seq<int>)
    requires 2 * m <= |k| && |y| == m && InBox(y, k)
    ensures y in Box(k, m)
  {
    if m == 0 {
      assert y == [];
    } else {
      var a, b := Box(k, m - 1), Singles(k[2 * (m - 1)]);
      InBoxPrefix(y, k);
      var y', c := y[..m - 1], y[m - 1];
      BoxMemberIn(k, m - 1, y');
      SinglesMember(k[2 * (m - 1)], [c]);
      var i := IndexOf(a, y');
      var j := IndexOf(b, [c]);
      assert y == a[i] + b[j];
      CrossGets(a, b, i, j);
    }
  }

  /** The box holds exactly the vectors of length `m` at or below the levels of `k`. */
  lemma BoxMember(k: seq<int>, m: nat, y: seq<int>)
    requires 2 * m <= |k|
    ensures y in Box(k, m) <==> |y| == m && InBox(y, k)
  {
    if y in Box(k, m) {
      BoxMemberOut(k, m, y);
    }
    if |y| == m && InBox(y, k) {
      BoxMemberIn(k, m, y);
    }
  }

  lemma {:induction false} BoxDistinct(k: seq<int>, m: nat)
    requires 2 * m <= |k|
    ensures Distinct(Box(k, m))
  {
    if m > 0 {
      BoxDistinct(k, m - 1);
      SinglesDistinct(k[2 * (m - 1)]);
      forall x | x in Box(k, m - 1) ensures |x| == m - 1 {
        BoxMember(k, m - 1, x);
      }
      CrossDistinct(Box(k, m - 1), Singles(k[2 * (m - 1)]), m - 1);
    }
  }

  lemma {:induction false} SinglesDistinct(c: int)
    ensures Distinct(Singles(c))
    decreases c
  {
    if c > 0 {
      SinglesDistinct(c - 1);
      forall x | x in Singles(c - 1) ensures x !in [[c]] {
        SinglesMember(c - 1, x);
      }
      DistinctConcat(Singles(c - 1), [[c]]);
    }
  }

  /** The hypotheses the chain keeps: `k` is a grid point, `table` its hats, and `g` holds exactly the grid's keys. */
  ghost predicate ChainReady(g: Values, table: seq<seq<ActiveBasis>>, k: seq<int>, n: nat, level: nat)
  {
    AtGridPoint(table, k, n, level) && forall key :: key in g <==> Admissible(key, n, level)
  }

  /** Every vector of `us` has `len` levels and lies in the box of `k`. */
  predicate BoxShaped(us: seq<seq<int>>, k: seq<int>, len: nat)
  {
    forall x :: x in us ==> |x| == len && InBox(x, k)
  }

  /**
   * Summing out dimension `m − 1` of every vector of `us` turns the
   * hierarchical values into values nodal in that dimension.
   */
  lemma {:induction false} CrossRows(g: Values, table: seq<seq<ActiveBasis>>, k: seq<int>, n: nat, level: nat, m: nat, us: seq<seq<int>>)
    requires ChainReady(g, table, k, n, level) && 1 <= m <= n && BoxShaped(us, k, m - 1)
    ensures PartSum(g, table, k, Cross(us, Singles(k[2 * (m - 1)]))) == PartSum(DehierarchizeDim(g, m - 1), table, k, us)
  {
    if us != [] {
      var s := Singles(k[2 * (m - 1)]);
      assert Cross(us, s) == PrependAll(us[0], s) + Cross(us[1..], s);
      PartSumAppend(g, table, k, PrependAll(us[0], s), Cross(us[1..], s));
      assert us[0] in us;
      CrossHead(g, table, k, n, level, m, us[0]);
      assert BoxShaped(us[1..], k, m - 1) by {
        forall x | x in us[1..] ensures x in us { }
      }
      CrossRows(g, table, k, n, level, m, us[1..]);
    }
  }

  /** One row of `CrossRows`: the vector `u` with every position of dimension `m − 1` appended. */
  lemma CrossHead(g: Values, table: seq<seq<ActiveBasis>>, k: seq<int>, n: nat, level: nat, m: nat, u: seq<int>)
    requires ChainReady(g, table, k, n, level) && 1 <= m <= n && |u| == m - 1 && InBox(u, k)
    ensures PartSum(g, table, k, PrependAll(u, Singles(k[2 * (m - 1)]))) == Part(DehierarchizeDim(g, m - 1), table, k, u)
  {
    BoxIndexes(table, k, n, level, u);
    RowNodal(g, table, k, n, level, u);
  }

  lemma BoxShape(k: seq<int>, m: nat)
    requires 2 * m <= |k|
    ensures BoxShaped(Box(k, m), k, m)
  {
    forall x | x in Box(k, m) ensures |x| == m && InBox(x, k) {
      BoxMember(k, m, x);
    }
  }

  /* The induction over the dimensions below keeps its heavy terms sealed. A recursive function is unfolded
     one call at a time, so a value defined `depth` calls down stays a plain name in the steps of the
     induction and is opened only in the small lemmas named `Unseal…`. */

  /** `ChainReady`, sealed `depth` calls deep. */
  ghost predicate SealedReady(g: Values, table: seq<seq<ActiveBasis>>, k: seq<int>, n: nat, level: nat, depth: nat)
    decreases depth
  {
    if depth == 0 then ChainReady(g, table, k, n, level) else SealedReady(g, table, k, n, level, depth - 1)
  }

  lemma UnsealReady(g: Values, table: seq<seq<ActiveBasis>>, k: seq<int>, n: nat, level: nat)
    requires SealedReady(g, table, k, n, level, 2)
    ensures ChainReady(g, table, k, n, level)
  {
    assert SealedReady(g, table, k, n, level, 1);
    assert SealedReady(g, table, k, n, level, 0);
  }

  lemma SealReady(g: Values, table: seq<seq<ActiveBasis>>, k: seq<int>, n: nat, level: nat)
    requires ChainReady(g, table, k, n, level)
    ensures SealedReady(g, table, k, n, level, 2)
  {
    assert SealedReady(g, table, k, n, level, 0);
    assert SealedReady(g, table, k, n, level, 1);
  }

  /** The sum of the parts over the box of the first `m` dimensions, sealed `depth` calls deep. */
  ghost function SealedBox(g: Values, table: seq<seq<ActiveBasis>>, k: seq<int>, m: nat, depth: nat): real
    requires 2 * m <= |k|
    decreases depth
  {
    if depth == 0 then PartSum(g, table, k, Box(k, m)) else SealedBox(g, table, k, m, depth - 1)
  }

  /** The value at `k` once dimensions `m − 1, …, 0` are dehierarchized, sealed `depth` calls deep. */
  ghost function SealedDown(g: Values, k: seq<int>, m: nat, depth: nat): real
    decreases depth
  {
    if depth == 0 then Lookup(DehierarchizeDownFrom(g, m), k) else SealedDown(g, k, m, depth - 1)
  }

  lemma UnsealBox(g: Values, table: seq<seq<ActiveBasis>>, k: seq<int>, m: nat)
    requires 2 * m <= |k|
    ensures SealedBox(g, table, k, m, 2) == PartSum(g, table, k, Box(k, m))
  {
    assert SealedBox(g, table, k, m, 1) == SealedBox(g, table, k, m, 0);
  }

  lemma UnsealDown(g: Values, k: seq<int>, m: nat)
    ensures SealedDown(g, k, m, 2) == Lookup(DehierarchizeDownFrom(g, m), k)
  {
    assert SealedDown(g, k, m, 1) == SealedDown(g, k, m, 0);
  }

  lemma SealedDownStep(g: Values, k: seq<int>, m: nat)
    requires m >= 1
    ensures SealedDown(g, k, m, 2) == SealedDown(DehierarchizeDim(g, m - 1), k, m - 1, 2)
  {
    UnsealDown(g, k, m);
    UnsealDown(DehierarchizeDim(g, m - 1), k, m - 1);
  }

  lemma {:induction false} SealedChain(g: Values, table: seq<seq<ActiveBasis>>, k: seq<int>, n: nat, level: nat, m: nat)
    requires SealedReady(g, table, k, n, level, 2) && |k| == 2 * n && m <= n
    ensures SealedBox(g, table, k, m, 2) == SealedDown(g, k, m, 2)
    decreases m, 1
  {
    if m == 0 {
      UnsealReady(g, table, k, n, level);
      BoxOfNothing(g, table, k);
      UnsealBox(g, table, k, 0);
      UnsealDown(g, k, 0);
    } else {
      SealedChainStep(g, table, k, n, level, m);
    }
  }

  /** The step of `SealedChain`: peel dimension `m − 1`, then chain the rest. */
  lemma {:induction false} SealedChainStep(g: Values, table: seq<seq<ActiveBasis>>, k: seq<int>, n: nat, level: nat, m: nat)
    requires SealedReady(g, table, k, n, level, 2) && |k| == 2 * n && 1 <= m <= n
    ensures SealedBox(g, table, k, m, 2) == SealedDown(g, k, m, 2)
    decreases m, 0
  {
    var g' := DehierarchizeDim(g, m - 1);
    SealedPeel(g, table, k, n, level, m);
    SealedChain(g', table, k, n, level, m - 1);
    SealedDownStep(g, k, m);
  }

  lemma SealedPeel(g: Values, table: seq<seq<ActiveBasis>>, k: seq<int>, n: nat, level: nat, m: nat)
    requires SealedReady(g, table, k, n, level, 2) && |k| == 2 * n && 1 <= m <= n
    ensures SealedBox(g, table, k, m, 2) == SealedBox(DehierarchizeDim(g, m - 1), table, k, m - 1, 2)
    ensures SealedReady(DehierarchizeDim(g, m - 1), table, k, n, level, 2)
  {
    UnsealReady(g, table, k, n, level);
    BoxPeel(g, table, k, n, level, m);
    UnsealBox(g, table, k, m);
    UnsealBox(DehierarchizeDim(g, m - 1), table, k, m - 1);
    ChainKept(g, table, k, n, level, m - 1);
    SealReady(DehierarchizeDim(g, m - 1), table, k, n, level);
  }

  /** The hierarchical values summed over the box of `k` give the value at `k` once every dimension is made nodal again. */
  lemma {:induction false} BoxChain(g: Values, table: seq<seq<ActiveBasis>>, k: seq<int>, n: nat, level: nat, m: nat)
    requires ChainReady(g, table, k, n, level) && |k| == 2 * n && m <= n
    ensures PartSum(g, table, k, Box(k, m)) == Lookup(DehierarchizeDownFrom(g, m), k)
  {
    SealReady(g, table, k, n, level);
    SealedChain(g, table, k, n, level, m);
    UnsealBox(g, table, k, m);
    UnsealDown(g, k, m);
  }

  /** Summing out the last dimension of the box of `m` dimensions leaves the box of `m − 1`, with that dimension nodal. */
  lemma BoxPeel(g: Values, table: seq<seq<ActiveBasis>>, k: seq<int>, n: nat, level: nat, m: nat)
    requires ChainReady(g, table, k, n, level) && |k| == 2 * n && 1 <= m <= n
    ensures PartSum(g, table, k, Box(k, m)) == PartSum(DehierarchizeDim(g, m - 1), table, k, Box(k, m - 1))
  {
    BoxShape(k, m - 1);
    CrossRows(g, table, k, n, level, m, Box(k, m - 1));
    BoxUnfold(g, table, k, m, DehierarchizeDim(g, m - 1));
  }

  /** Dehierarchizing one dimension keeps the grid's keys. */
  lemma ChainKept(g: Values, table: seq<seq<ActiveBasis>>, k: seq<int>, n: nat, level: nat, d: nat)
    requires ChainReady(g, table, k, n, level)
    ensures ChainReady(DehierarchizeDim(g, d), table, k, n, level)
  {
  }

  /** `Box(k, m)` is the cross of `Box(k, m − 1)` with the levels of dimension `m − 1`. */
  lemma BoxUnfold(g: Values, table: seq<seq<ActiveBasis>>, k: seq<int>, m: nat, g': Values)
    requires 1 <= m && 2 * m <= |k|
    requires PartSum(g, table, k, Cross(Box(k, m - 1), Singles(k[2 * (m - 1)]))) == PartSum(g', table, k, Box(k, m - 1))
    ensures PartSum(g, table, k, Box(k, m)) == PartSum(g', table, k, Box(k, m - 1))
  {
  }

  /** The box of no dimension holds the empty vector alone, whose part is the value at `k`. */
  lemma BoxOfNothing(g: Values, table: seq<seq<ActiveBasis>>, k: seq<int>)
    ensures PartSum(g, table, k, Box(k, 0)) == Lookup(DehierarchizeDownFrom(g, 0), k)
  {
    assert Box(k, 0) == [[]] && Box(k, 0)[1..] == [];
    assert BoxKey(table, k, []) == k;
    PartIs(g, table, k, [], k, Lookup(g, k), 1.0);
  }

  // ---------------------------------------------------------------------
  // only the box contributes
  // ---------------------------------------------------------------------

  lemma TermZero(hv: Values, table: seq<seq<ActiveBasis>>, hs: seq<int>)
    requires Indexes(table, hs) && WeightUpTo(table, hs, |hs|) == 0.0
    ensures Term(hv, table, hs) == 0.0
  {
  }

  /** One zero weight among the first `n` picks makes their product zero. */
  lemma {:induction false} WeightZero(table: seq<seq<ActiveBasis>>, hs: seq<int>, n: nat, d: nat)
    requires Indexes(table, hs) && d < n <= |hs| && table[d][hs[d] - 1].weight == 0.0
    ensures WeightUpTo(table, hs, n) == 0.0
  {
    if d < n - 1 {
      WeightZero(table, hs, n - 1, d);
    }
  }

  /** The hat picked in dimension `d` at a level above `k`'s own is zero at `k`'s point. */
  lemma PickedZero(table: seq<seq<ActiveBasis>>, k: seq<int>, n: nat, level: nat, d: nat, j: int)
    requires AtGridPoint(table, k, n, level) && d < n && 1 <= j <= level && j > k[2 * d]
    ensures table[d][j - 1].weight == 0.0
  {
    AdmissiblePair(k, n, level, d);
    TableEntry(table, k, n, level, d, j);
    ActiveAboveCentre(k[2 * d], k[2 * d + 1], j);
  }

  /** A level vector of the grid that leaves the box of `k` has some level above `k`'s own. */
  lemma OutOfBox(n: nat, level: nat, k: seq<int>, v: seq<int>) returns (d: nat)
    requires n >= 1 && |k| == 2 * n && v in LevelVectors(n, level, 1) && !InBox(v, k)
    ensures |v| == n && d < n && k[2 * d] < v[d] <= level
    ensures forall i :: 0 <= i < n ==> 1 <= v[i] <= level
  {
    LevelVectorsBounded(n, level, v);
    d :| d < |v| && !(1 <= v[d] <= k[2 * d]);
  }

  /** A level vector with a level above `k`'s in some dimension picks a hat that is zero at `k`'s point. */
  lemma OffBoxZero(hv: Values, table: seq<seq<ActiveBasis>>, k: seq<int>, n: nat, level: nat, v: seq<int>)
    requires AtGridPoint(table, k, n, level) && v in LevelVectors(n, level, 1) && !InBox(v, k)
    ensures Term(hv, table, [] + v) == 0.0
  {
    var d := OutOfBox(n, level, k, v);
    assert [] + v == v;
    OutsideZero(hv, table, k, n, level, v, d);
  }

  /** A vector of levels within the table whose level in dimension `d` exceeds `k`'s has no weight at `k`'s point. */
  lemma OutsideZero(hv: Values, table: seq<seq<ActiveBasis>>, k: seq<int>, n: nat, level: nat, v: seq<int>, d: nat)
    requires AtGridPoint(table, k, n, level) && |v| == n && d < n && k[2 * d] < v[d] <= level
    requires forall i :: 0 <= i < n ==> 1 <= v[i] <= level
    ensures Term(hv, table, v) == 0.0
  {
    assert Indexes(table, v);
    PickedZero(table, k, n, level, d, v[d]);
    WeightZero(table, v, n, d);
    TermZero(hv, table, v);
  }

  /** The level sum of `k` bounds the total of any vector in its box. */
  lemma {:induction false} BoxTotal(v: seq<int>, k: seq<int>)
    requires InBox(v, k) && |k| == 2 * |v|
    ensures Total(v) <= LevelSum(k)
  {
    if v != [] {
      var v', k' := v[1..], k[2..];
      forall d | 0 <= d < |v'| ensures 1 <= v'[d] <= k'[2 * d] {
        assert v'[d] == v[d + 1] && k'[2 * d] == k[2 * (d + 1)];
      }
      BoxTotal(v', k');
    }
  }

  lemma BoxInLevels(table: seq<seq<ActiveBasis>>, k: seq<int>, n: nat, level: nat, v: seq<int>)
    requires AtGridPoint(table, k, n, level) && |v| == n && InBox(v, k)
    ensures v in LevelVectors(n, level, 1)
  {
    BoxTotal(v, k);
    LevelVectorsMember(n, level, 1, v);
  }

  lemma TermIsPart(hv: Values, table: seq<seq<ActiveBasis>>, k: seq<int>, n: nat, level: nat, v: seq<int>)
    requires AtGridPoint(table, k, n, level) && |v| == n && InBox(v, k)
    ensures Term(hv, table, [] + v) == Part(hv, table, k, v)
  {
    assert [] + v == v;
    BoxIndexes(table, k, n, level, v);
    KeyUpToLength(table, v, n);
    var key := BoxKey(table, k, v);
    assert key == KeyUpTo(table, v, n);
    var x := Lookup(hv, key);
    var w := WeightUpTo(table, v, n);
    TermIs(hv, table, v, key, x, w);
    PartIs(hv, table, k, v, key, x, w);
  }

  lemma {:induction false} SumOverIsPartSum(hv: Values, table: seq<seq<ActiveBasis>>, k: seq<int>, n: nat, level: nat, vs: seq<seq<int>>)
    requires AtGridPoint(table, k, n, level)
    requires forall v :: v in vs ==> |v| == n && InBox(v, k)
    ensures SumOver(hv, table, [], vs) == PartSum(hv, table, k, vs)
  {
    if vs != [] {
      assert vs[0] in vs;
      TermIsPart(hv, table, k, n, level, vs[0]);
      SumOverIsPartSum(hv, table, k, n, level, vs[1..]);
    }
  }

  lemma {:induction false} SumZero(hv: Values, table: seq<seq<ActiveBasis>>, prefix: seq<int>, a: seq<seq<int>>)
    requires forall x :: x in a ==> Term(hv, table, prefix + x) == 0.0
    ensures SumOver(hv, table, prefix, a) == 0.0
  {
    if a != [] {
      assert a[0] in a;
      SumZero(hv, table, prefix, a[1..]);
    }
  }

  lemma SumRemove(hv: Values, table: seq<seq<ActiveBasis>>, prefix: seq<int>, a: seq<seq<int>>, i: nat)
    requires i < |a|
    ensures SumOver(hv, table, prefix, a) == Term(hv, table, prefix + a[i]) + SumOver(hv, table, prefix, a[..i] + a[i + 1..])
  {
    assert a == a[..i] + ([a[i]] + a[i + 1..]);
    SumOverAppend(hv, table, prefix, a[..i], [a[i]] + a[i + 1..]);
    SumOverAppend(hv, table, prefix, [a[i]], a[i + 1..]);
    SumOverAppend(hv, table, prefix, a[..i], a[i + 1..]);
    assert ([a[i]] + a[i + 1..])[1..] == a[i + 1..];
    assert [a[i]][1..] == [];
  }

  /** Over distinct vectors, terms that are zero outside `b` can be dropped from `a ⊇ b`. */
  lemma {:induction false} SumSubset(hv: Values, table: seq<seq<ActiveBasis>>, prefix: seq<int>, a: seq<seq<int>>, b: seq<seq<int>>)
    requires Distinct(a) && Distinct(b) && forall x :: x in b ==> x in a
    requires forall x :: x in a && x !in b ==> Term(hv, table, prefix + x) == 0.0
    ensures SumOver(hv, table, prefix, a) == SumOver(hv, table, prefix, b)
    decreases |b|
  {
    if b == [] {
      SumZero(hv, table, prefix, a);
    } else {
      assert b[0] in b;
      var i :| 0 <= i < |a| && a[i] == b[0];
      var a' := a[..i] + a[i + 1..];
      SumRemove(hv, table, prefix, a, i);
      forall x ensures x in a' <==> x in a && x != b[0] {
        RemoveMember(a, i, x);
      }
      forall x ensures x in b[1..] <==> x in b && x != b[0] {
        RemoveMember(b, 0, x);
      }
      DistinctRemove(a, i);
      DistinctRemove(b, 0);
      SumSubset(hv, table, prefix, a', b[1..]);
    }
  }

  /** Without the entry at `i`, a sequence of distinct entries holds exactly its other values. */
  lemma RemoveMember(a: seq<seq<int>>, i: nat, x: seq<int>)
    requires Distinct(a) && i < |a|
    ensures x in a[..i] + a[i + 1..] <==> x in a && x != a[i]
  {
    var a' := a[..i] + a[i + 1..];
    if x in a' {
      var j :| 0 <= j < |a'| && a'[j] == x;
      if j < i {
        assert x == a[j];
      } else {
        assert x == a[j + 1];
      }
    }
    if x in a && x != a[i] {
      var h :| 0 <= h < |a| && a[h] == x;
      if h < i {
        assert a'[h] == x;
      } else {
        assert a'[h - 1] == x;
      }
    }
  }

  lemma DistinctRemove(a: seq<seq<int>>, i: nat)
    requires Distinct(a) && i < |a|
    ensures Distinct(a[..i] + a[i + 1..])
  {
    var a' := a[..i] + a[i + 1..];
    forall x, y | 0 <= x < y < |a'| ensures a'[x] != a'[y] {
      var x' := if x < i then x else x + 1;
      var y' := if y < i then y else y + 1;
      assert a'[x] == a[x'] && a'[y] == a[y'];
    }
  }

  /** At a grid point, the interpolant sums hierarchical values over the box of `k` only. */
  lemma InterpolantIsBoxSum(hv: Values, table: seq<seq<ActiveBasis>>, k: seq<int>, n: nat, level: nat)
    requires AtGridPoint(table, k, n, level)
    ensures Interpolant(hv, table, n, level) == PartSum(hv, table, k, Box(k, n))
  {
    var lv, box := LevelVectors(n, level, 1), Box(k, n);
    LevelVectorsDistinct(n, level, 1);
    BoxDistinct(k, n);
    forall x | x in box ensures x in lv && |x| == n && InBox(x, k) {
      BoxMember(k, n, x);
      BoxInLevels(table, k, n, level, x);
    }
    forall x | x in lv && x !in box ensures Term(hv, table, [] + x) == 0.0 {
      BoxMember(k, n, x);
      LevelVectorsBounded(n, level, x);
      OffBoxZero(hv, table, k, n, level, x);
    }
    SumSubset(hv, table, [], lv, box);
    SumOverIsPartSum(hv, table, k, n, level, box);
  }

  // ---------------------------------------------------------------------
  // the interpolant at a grid point
  // ---------------------------------------------------------------------

  /** The active hat of level `j` at the position of `(l, p)` in `iv` is the one at its centre. */
  lemma ActiveAtCoordinate(l: int, p: int, iv: Interval, j: int)
    requires iv.lo < iv.hi && j >= 1
    ensures ActiveAt(Coordinate(l, p, Some(iv)), iv, j) == Active1(Centre(l, p), j)
  {
    var x := Coordinate(l, p, Some(iv));
    CoordinateNormalized(l, p, iv);
    HatInterval(x, j, ActivePosition(Normalize(x, iv), j), iv);
  }

  /** The position of an admissible index lies in the domain, and its table holds the hats at the centres of its pairs. */
  lemma GridPointTable(k: seq<int>, domain: seq<Interval>, dim: nat, level: nat)
    requires dim >= 1 && Admissible(k, dim, level) && |k| == 2 * dim
    requires |domain| >= dim && forall i :: 0 <= i < dim ==> domain[i].lo < domain[i].hi
    ensures InDomain(PointPosition(k, Some(domain)), domain, dim)
    ensures AtGridPoint(ActiveTable(PointPosition(k, Some(domain)), domain, dim, level), k, dim, level)
  {
    var x := PointPosition(k, Some(domain));
    var table := ActiveTable(x, domain, dim, level);
    forall i | 0 <= i < dim
      ensures x[i] == Coordinate(k[2 * i], k[2 * i + 1], Some(domain[i]))
      ensures InInterval(x[i], domain[i])
      ensures forall j :: 0 <= j < level ==> table[i][j] == Active1(Centre(k[2 * i], k[2 * i + 1]), j + 1)
    {
      assert DomainAt(Some(domain), i) == Some(domain[i]);
      AdmissiblePair(k, dim, level, i);
      CoordinateNormalized(k[2 * i], k[2 * i + 1], domain[i]);
      CentreUnit(k[2 * i], k[2 * i + 1]);
      forall j | 0 <= j < level ensures table[i][j] == Active1(Centre(k[2 * i], k[2 * i + 1]), j + 1) {
        ActiveAtCoordinate(k[2 * i], k[2 * i + 1], domain[i], j + 1);
      }
    }
  }

  /**
   * The sparse grid interpolates: at every grid point `k`, the interpolant
   * built from the hierarchical values, evaluated at `k`'s position in the
   * domain, gives back the function value stored at `k`.
   */
  lemma InterpolatesAtGridPoints(fv: Values, domain: seq<Interval>, dim: nat, level: nat, k: seq<int>)
    requires dim >= 1 && forall key :: key in fv <==> Admissible(key, dim, level)
    requires |domain| >= dim && forall i :: 0 <= i < dim ==> domain[i].lo < domain[i].hi
    requires k in fv
    ensures |k| == 2 * dim && InDomain(PointPosition(k, Some(domain)), domain, dim)
    ensures Interpolant(HierarchizeUpTo(fv, dim),
      ActiveTable(PointPosition(k, Some(domain)), domain, dim, level), dim, level) == fv[k]
  {
    WellFormedLength(k, dim);
    var table := ActiveTable(PointPosition(k, Some(domain)), domain, dim, level);
    GridPointTable(k, domain, dim, level);
    var h := HierarchizeUpTo(fv, dim);
    InterpolantIsBoxSum(h, table, k, dim, level);
    BoxChain(h, table, k, dim, level, dim);
    forall d | 0 <= d < dim ensures ParentClosed(fv.Keys, d) {
      AdmissibleParentClosed(fv.Keys, dim, level, d);
    }
    RecoverNodal(fv, dim);
  }

}
