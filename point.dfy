/**
 * Grid points (sparse_grid/point.py): a point's physical coordinates,
 * derived from its interleaved multi-index `[l_1, p_1, …, l_d, p_d]` and
 * the domain, together with its nodal value `fv` and hierarchical value `hv`.
 */
module Point {
  import opened Wrappers
  import opened Utils

  /**
   * One grid node. The grid overwrites `fv` and `hv` from outside; here that
   * is a new value with the field replaced, stored back under the same key.
   */
  datatype GridPoint = GridPoint(pos: seq<real>, fv: real, hv: real)

  /** The domain the grid starts with: `(0, 1)` in each of `n` dimensions. */
  function UnitDomain(n: nat): (d: seq<Interval>)
    ensures |d| == n && forall i :: 0 <= i < n ==> d[i] == Interval(0.0, 1.0)
  {
    seq(n, _ => Interval(0.0, 1.0))
  }

  /** The interval of dimension `i`, if a domain is given. */
  function DomainAt(domain: Option<seq<Interval>>, i: nat): Option<Interval>
    requires domain.Some? ==> i < |domain.value|
  {
    match domain
    case None => None
    case Some(d) => Some(d[i])
  }

  /**
   * One coordinate: `p / 2^l` without a domain, and
   * `(hi − lo)·p / 2^l + lo` with the interval `(lo, hi)`.
   */
  function Coordinate(l: int, p: int, iv: Option<Interval>): real
  {
    match iv
    case None => p as real / Pow2Real(l)
    case Some(d) => (d.hi - d.lo) * (p as real) / Pow2Real(l) + d.lo
  }

  /** The first `n` coordinates of `index`, appended one dimension at a time. */
  function PositionsUpTo(index: seq<int>, domain: Option<seq<Interval>>, n: nat): (r: seq<real>)
    requires 2 * n <= |index|
    requires domain.Some? ==> n <= |domain.value|
    ensures |r| == n
    ensures forall i :: 0 <= i < n ==> r[i] == Coordinate(index[2 * i], index[2 * i + 1], DomainAt(domain, i))
  {
    if n == 0 then []
    else PositionsUpTo(index, domain, n - 1) + [Coordinate(index[2 * (n - 1)], index[2 * (n - 1) + 1], DomainAt(domain, n - 1))]
  }

  /**
   * `point_position`: one coordinate per (level, position) pair, that is
   * `len(index) // 2` of them.
   */
  function PointPosition(index: seq<int>, domain: Option<seq<Interval>>): (r: seq<real>)
    requires domain.Some? ==> |index| / 2 <= |domain.value|
    ensures |r| == |index| / 2
    ensures forall i :: 0 <= i < |index| / 2 ==> r[i] == Coordinate(index[2 * i], index[2 * i + 1], DomainAt(domain, i))
  {
    PositionsUpTo(index, domain, |index| / 2)
  }

  /**
   * `GridPoint(index, domain)`: both values start at zero, and the position
   * is empty when no index is given.
   */
  function NewGridPoint(index: Option<seq<int>>, domain: Option<seq<Interval>>): (g: GridPoint)
    requires index.Some? && domain.Some? ==> |index.value| / 2 <= |domain.value|
    ensures g.fv == 0.0 && g.hv == 0.0
    ensures index.None? ==> g.pos == []
    ensures index.Some? ==> |g.pos| == |index.value| / 2
    ensures index.Some? ==> g.pos == PointPosition(index.value, domain)
  {
    match index
    case None => GridPoint([], 0.0, 0.0)
    case Some(ix) => GridPoint(PointPosition(ix, domain), 0.0, 0.0)
  }

  /** With the interval `(0, 1)` a coordinate is the one without a domain. */
  lemma CoordinateUnitInterval(l: int, p: int)
    ensures Coordinate(l, p, Some(Interval(0.0, 1.0))) == Coordinate(l, p, None)
  {
  }

  /** With the domain `(0, 1)^n` the positions are those without a domain. */
  lemma PositionUnitDomain(index: seq<int>, n: nat)
    requires |index| / 2 <= n
    ensures PointPosition(index, Some(UnitDomain(n))) == PointPosition(index, None)
  {
    var a := PointPosition(index, Some(UnitDomain(n)));
    var b := PointPosition(index, None);
    forall i | 0 <= i < |index| / 2 ensures a[i] == b[i] {
      CoordinateUnitInterval(index[2 * i], index[2 * i + 1]);
    }
  }

  /** A coordinate mapped back to `[0, 1]` is the centre `p / 2^l` of its hat. */
  lemma CoordinateNormalized(l: int, p: int, iv: Interval)
    requires iv.lo < iv.hi
    ensures Normalize(Coordinate(l, p, Some(iv)), iv) == Centre(l, p)
  {
    var w := iv.hi - iv.lo;
    var c := Centre(l, p);
    CoordinateAffine(l, p, iv);
    assert Coordinate(l, p, Some(iv)) - iv.lo == w * c;
    DivCancel(c, w);
    assert c * w == w * c;
  }

  /** A coordinate is the affine image `lo + (hi − lo)·c` of its centre `c`. */
  lemma CoordinateAffine(l: int, p: int, iv: Interval)
    ensures Coordinate(l, p, Some(iv)) == iv.lo + (iv.hi - iv.lo) * Centre(l, p)
  {
    var s, w, q := iv.hi - iv.lo, Pow2Real(l), p as real;
    var c := Centre(l, p);
    assert c == q / w;
    MulDivAssoc(s, q, w);
    assert s * c == s * q / w;
    assert Coordinate(l, p, Some(iv)) == s * q / w + iv.lo;
  }

  /** The centre of a hat with `1 ≤ p ≤ 2^l − 1` lies strictly inside `(0, 1)`. */
  lemma CentreInside(l: nat, p: int)
    requires 1 <= p < Pow2(l)
    ensures 0.0 < Centre(l, p) < 1.0
  {
    var w := Pow2Real(l);
    assert w == Pow2(l) as real;
    DivLtDiv(0.0, p as real, w);
    DivLtDiv(p as real, w, w);
    DivSelf(w);
  }

  /** Positions `0` and `2^l` are the two ends of the interval. */
  lemma CoordinateEnds(l: nat, iv: Interval)
    ensures Coordinate(l, 0, Some(iv)) == iv.lo
    ensures Coordinate(l, Pow2(l), Some(iv)) == iv.hi
  {
    var w, s := Pow2Real(l), iv.hi - iv.lo;
    assert Coordinate(l, 0, Some(iv)) == s * 0.0 / w + iv.lo;
    assert Coordinate(l, Pow2(l), Some(iv)) == s * w / w + iv.lo;
    DivCancel(s, w);
  }

  /** A boundary-free coordinate lies strictly inside its interval. */
  lemma CoordinateInside(l: nat, p: int, iv: Interval)
    requires iv.lo < iv.hi
    requires 1 <= p < Pow2(l)
    ensures iv.lo < Coordinate(l, p, Some(iv)) < iv.hi
  {
    CoordinateEnds(l, iv);
    CoordinateMonotone(l, 0, p, iv);
    CoordinateMonotone(l, p, Pow2(l), iv);
  }

  /** At a fixed level the coordinate increases strictly with the position. */
  lemma CoordinateMonotone(l: int, p: int, q: int, iv: Interval)
    requires iv.lo < iv.hi
    requires p < q
    ensures Coordinate(l, p, Some(iv)) < Coordinate(l, q, Some(iv))
  {
    var w := iv.hi - iv.lo;
    var cp, cq := Centre(l, p), Centre(l, q);
    var xp, xq := Coordinate(l, p, Some(iv)), Coordinate(l, q, Some(iv));
    assert cp < cq by {
      assert Pow2Real(l) > 0.0;
      DivLtDiv(p as real, q as real, Pow2Real(l));
    }
    assert w * cp < w * cq by { MulLtMul(w, cp, cq); }
    assert xp == iv.lo + w * cp by { CoordinateAffine(l, p, iv); }
    assert xq == iv.lo + w * cq by { CoordinateAffine(l, q, iv); }
  }
}
