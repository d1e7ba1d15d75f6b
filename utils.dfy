/**
 * Basis utilities of the sparse grid (sparse_grid/utils.py): the pairwise
 * concatenation `cross` of two index lists and the one-dimensional hat
 * basis function, plus the powers of two both of them rely on.
 */
module Utils {
  import opened Wrappers

  /** 2^n for a natural exponent. */
  function Pow2(n: nat): (r: nat)
    ensures r >= 1
  {
    if n == 0 then 1 else 2 * Pow2(n - 1)
  }

  lemma {:induction false} Pow2Add(a: nat, b: nat)
    ensures Pow2(a + b) == Pow2(a) * Pow2(b)
  {
    if a > 0 {
      Pow2Add(a - 1, b);
      DoubleProduct(Pow2(a - 1), Pow2(b));
    }
  }

  lemma DoubleProduct(x: int, y: int)
    ensures 2 * (x * y) == (2 * x) * y
  {
  }

  lemma {:induction false} Pow2Monotone(a: nat, b: nat)
    requires a <= b
    ensures Pow2(a) <= Pow2(b)
    ensures a < b ==> 2 * Pow2(a) <= Pow2(b)
  {
    if a < b {
      Pow2Monotone(a, b - 1);
    }
  }

  /** Python's `2 ** e` (or `2.0 ** e`) as an exact real, for any integer exponent. */
  function Pow2Real(e: int): (r: real)
    ensures r > 0.0
    ensures e >= 0 ==> r == Pow2(e) as real
  {
    if e >= 0 then Pow2(e) as real else 1.0 / (Pow2(-e) as real)
  }

  function Abs(r: real): real
  {
    if r < 0.0 then -r else r
  }

  // Small facts of real arithmetic, stated once so that the proofs below
  // stay linear.

  lemma MulDivAssoc(s: real, p: real, w: real)
    requires w != 0.0
    ensures s * p / w == s * (p / w)
  {
  }

  lemma DivLtDiv(a: real, b: real, w: real)
    requires w > 0.0 && a < b
    ensures a / w < b / w
  {
  }

  lemma MulLtMul(s: real, a: real, b: real)
    requires s > 0.0 && a < b
    ensures s * a < s * b
  {
  }

  lemma DivCancel(a: real, w: real)
    requires w != 0.0
    ensures a / w * w == a
    ensures a * w / w == a
  {
  }

  lemma DivSelf(w: real)
    requires w != 0.0
    ensures w / w == 1.0
  {
  }

  // ---------------------------------------------------------------------
  // cross
  // ---------------------------------------------------------------------

  /** `[x ++ y for y in b]`: one pass of the inner loop of `cross`. */
  function PrependAll(x: seq<int>, b: seq<seq<int>>): (r: seq<seq<int>>)
    ensures |r| == |b|
  {
    if b == [] then [] else [x + b[0]] + PrependAll(x, b[1..])
  }

  /** Entry `k` of `[x ++ y for y in b]` is `x ++ b[k]`. */
  lemma {:induction false} PrependAllAt(x: seq<int>, b: seq<seq<int>>)
    ensures forall k :: 0 <= k < |b| ==> PrependAll(x, b)[k] == x + b[k]
  {
    if b != [] {
      PrependAllAt(x, b[1..]);
      forall k | 1 <= k < |b| ensures PrependAll(x, b)[k] == x + b[k] {
        assert b[1..][k - 1] == b[k];
      }
    }
  }

  /** `i·m` computed by repeated addition, the way the loops of `cross` advance. */
  function Offset(i: nat, m: nat): nat
  {
    if i == 0 then 0 else m + Offset(i - 1, m)
  }

  lemma {:induction false} OffsetIsProduct(i: nat, m: nat)
    ensures Offset(i, m) == i * m
  {
    if i > 0 {
      OffsetIsProduct(i - 1, m);
      assert (i - 1) * m + m == i * m;
    }
  }

  /**
   * The pairwise concatenation of two index lists: the outer loop runs over
   * `a`, the inner loop over `b`, and each pair is concatenated; a block of
   * `|b|` entries per element of `a`.
   */
  function Cross(a: seq<seq<int>>, b: seq<seq<int>>): (r: seq<seq<int>>)
    ensures |r| == Offset(|a|, |b|)
  {
    if a == [] then [] else PrependAll(a[0], b) + Cross(a[1..], b)
  }

  /** `cross` has `|a|·|b|` entries. */
  lemma CrossLength(a: seq<seq<int>>, b: seq<seq<int>>)
    ensures |Cross(a, b)| == |a| * |b|
  {
    OffsetIsProduct(|a|, |b|);
  }

  /** Element `i·|b| + k` of `Cross(a, b)` is `a[i] ++ b[k]`. */
  lemma CrossAt(a: seq<seq<int>>, b: seq<seq<int>>, i: nat, k: nat)
    requires i < |a| && k < |b|
    ensures i * |b| + k < |Cross(a, b)|
    ensures Cross(a, b)[i * |b| + k] == a[i] + b[k]
  {
    CrossAtOffset(a, b, i, k);
    OffsetIsProduct(i, |b|);
    assert Offset(i, |b|) + k == i * |b| + k;
  }

  lemma {:induction false} CrossAtOffset(a: seq<seq<int>>, b: seq<seq<int>>, i: nat, k: nat)
    requires i < |a| && k < |b|
    ensures Offset(i, |b|) + k < |Cross(a, b)|
    ensures Cross(a, b)[Offset(i, |b|) + k] == a[i] + b[k]
  {
    if i == 0 {
      CrossBlock(a, b, k);
      assert Offset(i, |b|) + k == k;
    } else {
      var m := Offset(i - 1, |b|) + k;
      CrossAtOffset(a[1..], b, i - 1, k);
      CrossShift(a, b, m);
      assert a[1..][i - 1] == a[i];
      assert Cross(a, b)[|b| + m] == a[i] + b[k];
      assert Offset(i, |b|) + k == |b| + m;
    }
  }

  /** Past the first block, `Cross(a, b)` continues with `Cross(a[1..], b)`. */
  lemma CrossShift(a: seq<seq<int>>, b: seq<seq<int>>, m: nat)
    requires a != [] && m < |Cross(a[1..], b)|
    ensures |b| + m < |Cross(a, b)| && Cross(a, b)[|b| + m] == Cross(a[1..], b)[m]
  {
    assert Cross(a, b) == PrependAll(a[0], b) + Cross(a[1..], b);
  }

  /** Every element of `Cross(a, b)` is some `a[i] ++ b[k]`; this finds `i` and `k`. */
  lemma {:induction false} CrossElement(a: seq<seq<int>>, b: seq<seq<int>>, n: nat) returns (i: nat, k: nat)
    requires n < |Cross(a, b)|
    ensures i < |a| && k < |b| && Cross(a, b)[n] == a[i] + b[k]
  {
    CrossBlock(a, b, n);
    if n < |b| {
      i, k := 0, n;
    } else {
      var i', k' := CrossElement(a[1..], b, n - |b|);
      assert a[1..][i'] == a[i' + 1];
      i, k := i' + 1, k';
    }
  }

  /** Entry `n` of `Cross(a, b)` lies in the block of `a[0]` or further on. */
  lemma CrossBlock(a: seq<seq<int>>, b: seq<seq<int>>, n: nat)
    requires n < |Cross(a, b)|
    ensures a != []
    ensures n < |b| ==> Cross(a, b)[n] == a[0] + b[n]
    ensures n >= |b| ==> n - |b| < |Cross(a[1..], b)| && Cross(a, b)[n] == Cross(a[1..], b)[n - |b|]
  {
    assert Cross(a, b) == PrependAll(a[0], b) + Cross(a[1..], b);
    PrependAllAt(a[0], b);
  }

  /** Membership in `Cross(a, b)`, both directions. */
  lemma CrossMember(a: seq<seq<int>>, b: seq<seq<int>>, x: seq<int>)
    ensures x in Cross(a, b) <==> exists i, k :: 0 <= i < |a| && 0 <= k < |b| && x == a[i] + b[k]
  {
    if x in Cross(a, b) {
      CrossHas(a, b, x);
    }
    if exists i, k :: 0 <= i < |a| && 0 <= k < |b| && x == a[i] + b[k] {
      var i, k :| 0 <= i < |a| && 0 <= k < |b| && x == a[i] + b[k];
      CrossGets(a, b, i, k);
    }
  }

  /** An element of `Cross(a, b)` is some `a[i] ++ b[k]`. */
  lemma CrossHas(a: seq<seq<int>>, b: seq<seq<int>>, x: seq<int>)
    requires x in Cross(a, b)
    ensures exists i, k :: 0 <= i < |a| && 0 <= k < |b| && x == a[i] + b[k]
  {
    var n :| 0 <= n < |Cross(a, b)| && Cross(a, b)[n] == x;
    var i, k := CrossElement(a, b, n);
    assert 0 <= i < |a| && 0 <= k < |b| && x == a[i] + b[k];
  }

  /** The position of an element of a list. */
  lemma IndexOf(s: seq<seq<int>>, x: seq<int>) returns (i: nat)
    requires x in s
    ensures i < |s| && s[i] == x
  {
    i :| 0 <= i < |s| && s[i] == x;
  }

  /** Every `a[i] ++ b[k]` is an element of `Cross(a, b)`. */
  lemma CrossGets(a: seq<seq<int>>, b: seq<seq<int>>, i: nat, k: nat)
    requires i < |a| && k < |b|
    ensures a[i] + b[k] in Cross(a, b)
  {
    CrossAtOffset(a, b, i, k);
    var n := Offset(i, |b|) + k;
    assert Cross(a, b)[n] == a[i] + b[k];
  }

  /** `cross` distributes over concatenation of its first argument. */
  lemma {:induction false} CrossAppend(a1: seq<seq<int>>, a2: seq<seq<int>>, b: seq<seq<int>>)
    ensures Cross(a1 + a2, b) == Cross(a1, b) + Cross(a2, b)
  {
    if a1 != [] {
      assert (a1 + a2)[1..] == a1[1..] + a2;
      CrossAppend(a1[1..], a2, b);
    } else {
      assert a1 + a2 == a2;
    }
  }

  /** `cross` with an empty argument is empty. */
  lemma {:induction false} CrossEmpty(a: seq<seq<int>>, b: seq<seq<int>>)
    ensures Cross([], b) == []
    ensures Cross(a, []) == []
  {
    if a != [] {
      CrossEmpty(a[1..], []);
    }
  }

  /** Each element of `Cross(a, b)` is as long as its two parts together. */
  lemma CrossLengths(a: seq<seq<int>>, b: seq<seq<int>>, la: nat, lb: nat)
    requires forall x :: x in a ==> |x| == la
    requires forall y :: y in b ==> |y| == lb
    ensures forall z :: z in Cross(a, b) ==> |z| == la + lb
  {
    forall z | z in Cross(a, b) ensures |z| == la + lb {
      CrossMember(a, b, z);
    }
  }

  // ---------------------------------------------------------------------
  // the one-dimensional hat basis
  // ---------------------------------------------------------------------

  /** A closed interval `(lo, hi)` of one dimension of the domain. */
  datatype Interval = Interval(lo: real, hi: real)

  /** The coordinate `x` mapped affinely so that `lo ↦ 0` and `hi ↦ 1`. */
  function Normalize(x: real, iv: Interval): real
    requires iv.hi != iv.lo
  {
    (x - iv.lo) / (iv.hi - iv.lo)
  }

  /**
   * `eval_basis_1d`: the hat function of level `l` and position `p`,
   * `1 − |t·2^l − p|`, where `t` is `x` itself without an interval and the
   * normalised coordinate with one. It is not clamped at zero.
   */
  function EvalBasis1D(x: real, l: int, p: int, interval: Option<Interval>): (r: real)
    requires interval.Some? ==> interval.value.hi != interval.value.lo
    ensures r <= 1.0
  {
    match interval
    case None => 1.0 - Abs(x * Pow2Real(l) - p as real)
    case Some(iv) => 1.0 - Abs(Normalize(x, iv) * Pow2Real(l) - p as real)
  }

  /** The point `p / 2^l` of `[0, 1]` at which the hat `(l, p)` peaks. */
  function Centre(l: int, p: int): real
  {
    p as real / Pow2Real(l)
  }

  /** Scaling by a positive factor preserves order and equality. */
  lemma ScalePositive(t: real, c: real, w: real)
    requires w > 0.0
    ensures t * w - c * w == (t - c) * w
    ensures t * w == c * w <==> t == c
    ensures t * w <= c * w <==> t <= c
  {
  }

  lemma CentreScaled(l: int, p: int)
    ensures Centre(l, p) * Pow2Real(l) == p as real
  {
    var w := Pow2Real(l);
    assert p as real / w * w == p as real;
  }

  /** The hat as a function of the distance from its centre. */
  lemma HatOfDistance(t: real, l: int, p: int)
    ensures EvalBasis1D(t, l, p, None) == 1.0 - Abs((t - Centre(l, p)) * Pow2Real(l))
  {
    var w := Pow2Real(l);
    CentreScaled(l, p);
    ScalePositive(t, Centre(l, p), w);
  }

  /** The hat reaches 1 exactly at its centre. */
  lemma HatIsOneIff(t: real, l: int, p: int)
    ensures EvalBasis1D(t, l, p, None) == 1.0 <==> t == Centre(l, p)
  {
    HatOfDistance(t, l, p);
    ScaledIsZero(t - Centre(l, p), Pow2Real(l));
  }

  lemma ScaledIsZero(d: real, w: real)
    requires w > 0.0
    ensures 1.0 - Abs(d * w) == 1.0 <==> d == 0.0
  {
    ScalePositive(d, 0.0, w);
  }

  /** `1 − |t·w − q| ≥ 0` exactly when `t` lies within `1/w` of `q/w`. */
  lemma WithinOneScaled(t: real, w: real, q: real)
    requires w > 0.0
    ensures 1.0 - Abs(t * w - q) >= 0.0 <==> (q - 1.0) / w <= t <= (q + 1.0) / w
  {
    var x := t * w;
    assert 1.0 - Abs(x - q) >= 0.0 <==> q - 1.0 <= x <= q + 1.0;
    DivBound(t, q - 1.0, w);
    DivBound(t, q + 1.0, w);
  }

  /** Dividing a bound by a positive factor instead of multiplying the other side. */
  lemma DivBound(t: real, q: real, w: real)
    requires w > 0.0
    ensures t * w <= q <==> t <= q / w
    ensures q <= t * w <==> q / w <= t
  {
    var h := q / w;
    assert h * w == q;
    ScalePositive(t, h, w);
    ScalePositive(h, t, w);
  }

  /** The hat is non-negative exactly on its support `[(p − 1)/2^l, (p + 1)/2^l]`. */
  lemma HatNonNegativeIff(t: real, l: int, p: int)
    ensures EvalBasis1D(t, l, p, None) >= 0.0 <==>
      (p as real - 1.0) / Pow2Real(l) <= t <= (p as real + 1.0) / Pow2Real(l)
  {
    var w, q := Pow2Real(l), p as real;
    assert EvalBasis1D(t, l, p, None) == 1.0 - Abs(t * w - q);
    WithinOneScaled(t, w, q);
  }

  /** Within its support the hat falls linearly from 1 at the centre, with slope 2^l. */
  lemma HatLinear(l: int, p: int, delta: real)
    ensures EvalBasis1D(Centre(l, p) + delta, l, p, None) == 1.0 - Abs(delta) * Pow2Real(l)
  {
    var w := Pow2Real(l);
    CentreScaled(l, p);
    assert (Centre(l, p) + delta) * w - p as real == delta * w;
  }

  /** With the interval `(0, 1)` the hat is the one without an interval. */
  lemma HatUnitInterval(x: real, l: int, p: int)
    ensures EvalBasis1D(x, l, p, Some(Interval(0.0, 1.0))) == EvalBasis1D(x, l, p, None)
  {
    assert Normalize(x, Interval(0.0, 1.0)) == x;
  }

  /** With an interval, the hat is the unit-interval hat of the normalised coordinate. */
  lemma HatInterval(x: real, l: int, p: int, iv: Interval)
    requires iv.hi != iv.lo
    ensures EvalBasis1D(x, l, p, Some(iv)) == EvalBasis1D(Normalize(x, iv), l, p, None)
  {
  }
}
