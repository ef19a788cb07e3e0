/** The rectangle of one run of paint: centroid, principal axis in closed form, extents along
    and across it, and the test that the paint fills the rectangle. Exact real arithmetic. */
module PaintFit {

  const MIN_MARKING_FILL: real := 0.55
  const TINY: real := 0.000000000001

  /** An exact square root of a sum of squares, as a parameter. */
  ghost predicate IsHypot(hypot: (real, real) -> real) {
    forall a, b :: hypot(a, b) >= 0.0 && hypot(a, b) * hypot(a, b) == a * a + b * b
  }

  datatype Point = Point(x: real, z: real)

  function At(source: seq<real>, cell: int): Point
    requires 0 <= 3 * cell + 2 < |source|
  {
    Point(source[3 * cell], source[3 * cell + 2])
  }

  ghost predicate Located(source: seq<real>, cells: seq<int>) {
    forall k :: 0 <= k < |cells| ==> 0 <= cells[k] && 3 * cells[k] + 2 < |source|
  }

  // ---------------------------------------------------------------- the covariance

  /** Symmetric 2x2 matrix of second moments. */
  datatype Moments = Moments(xx: real, xz: real, zz: real) {
    ghost function Times(v: Point): Point {
      Point(xx * v.x + xz * v.z, xz * v.x + zz * v.z)
    }

    /** Spread of the run along `v`. */
    ghost function Along(v: Point): real {
      xx * v.x * v.x + 2.0 * xz * v.x * v.z + zz * v.z * v.z
    }
  }

  ghost predicate IsUnit(v: Point) {
    v.x * v.x + v.z * v.z == 1.0
  }

  ghost predicate IsEigenvector(m: Moments, v: Point) {
    IsUnit(v) && exists l :: Scales(m, v, l)
  }

  ghost predicate Scales(m: Moments, v: Point, l: real) {
    m.Times(v) == Point(l * v.x, l * v.z)
  }

  /** The direction the run was painted in: no unit vector has more of the spread along it. */
  ghost predicate IsPrincipal(m: Moments, v: Point) {
    IsEigenvector(m, v) && forall w :: IsUnit(w) ==> m.Along(w) <= m.Along(v)
  }

  /** The closed form: (xx - zz + spread, 2 xz), or the x axis when that is too short. */
  function Axis(m: Moments, hypot: (real, real) -> real): Point {
    var spread := hypot(m.xx - m.zz, 2.0 * m.xz);
    var ux := m.xx - m.zz + spread;
    var uz := 2.0 * m.xz;
    var length := hypot(ux, uz);
    if length < TINY then Point(1.0, 0.0) else Point(ux / length, uz / length)
  }

  function AxisLength(m: Moments, hypot: (real, real) -> real): real {
    hypot(m.xx - m.zz + hypot(m.xx - m.zz, 2.0 * m.xz), 2.0 * m.xz)
  }

  // scaled arithmetic, with d = xx - zz, b = 2 xz, s = spread, t = xx + zz

  lemma RawEigen(d: real, b: real, s: real, t: real)
    requires s * s == d * d + b * b
    ensures (t + d) * (d + s) + b * b == (t + s) * (d + s)
    ensures b * (d + s) + (t - d) * b == (t + s) * b
  {
    assert (t + d) * (d + s) + b * b == t * (d + s) + d * d + d * s + b * b;
    assert (t + s) * (d + s) == t * (d + s) + s * d + s * s;
  }

  lemma DivideBy(a: real, n: real, l: real, k: real)
    requires n != 0.0 && a == l * k
    ensures a / n == l * (k / n)
  {
  }

  lemma SplitDivision(p: real, q: real, u: real, v: real, n: real)
    requires n != 0.0
    ensures p * (u / n) + q * (v / n) == (p * u + q * v) / n
  {
    var a, b := u / n, v / n;
    assert a * n == u && b * n == v;
    assert (p * a + q * b) * n == p * u + q * v;
  }

  lemma UnitAfterScaling(u: real, v: real, n: real)
    requires n > 0.0 && n * n == u * u + v * v
    ensures IsUnit(Point(u / n, v / n))
  {
    var a, b := u / n, v / n;
    assert a * n == u && b * n == v;
    SquareProduct(a, n, u);
    SquareProduct(b, n, v);
    var f := Square(n);
    SumToOne(a * a, b * b, f, u * u, v * v);
  }

  lemma Square(n: real) returns (f: real)
    requires n > 0.0
    ensures f == n * n && f > 0.0
  {
    f := n * n;
    ProductPositive(n, n, f);
  }

  lemma ProductPositive(a: real, b: real, f: real)
    requires a > 0.0 && b > 0.0 && f == a * b
    ensures f > 0.0
  {
  }

  lemma SumToOne(p: real, q: real, f: real, u: real, v: real)
    requires f > 0.0
    requires f == u + v
    requires p * f == u
    requires q * f == v
    ensures p + q == 1.0
  {
    var r := p + q;
    Distributes(p, q, r, f);
    assert r * f == u + v;
    CancelFactor(r, f);
  }

  lemma Distributes(p: real, q: real, r: real, f: real)
    requires r == p + q
    ensures r * f == p * f + q * f
  {
  }

  lemma SquareProduct(a: real, n: real, u: real)
    requires a * n == u
    ensures a * a * (n * n) == u * u
  {
    assert a * (a * n) * n == a * u * n;
    assert a * u * n == (a * n) * u;
  }

  lemma CancelFactor(r: real, f: real)
    requires f != 0.0 && r * f == f
    ensures r == 1.0
  {
    assert (r - 1.0) * f == 0.0;
  }

  lemma ScaledEigen(m: Moments, d: real, b: real, s: real, t: real, n: real)
    requires d == m.xx - m.zz && b == 2.0 * m.xz && t == m.xx + m.zz && s * s == d * d + b * b && n != 0.0
    ensures Scales(m, Point((d + s) / n, b / n), (t + s) / 2.0)
  {
    RawEigen(d, b, s, t);
    RawTimes(m, d, b, s, t);
    EigenRow(m.xx, m.xz, d + s, b, n, (t + s) / 2.0, d + s);
    EigenRow(m.xz, m.zz, d + s, b, n, (t + s) / 2.0, b);
  }

  /** One row of the equation, divided by the length. */
  lemma EigenRow(p: real, q: real, u: real, v: real, n: real, l: real, k: real)
    requires n != 0.0 && p * u + q * v == l * k
    ensures p * (u / n) + q * (v / n) == l * (k / n)
  {
    SplitDivision(p, q, u, v, n);
    DivideBy(p * u + q * v, n, l, k);
  }

  /** Away from the degenerate branch the axis is a unit eigenvector, for the larger eigenvalue. */
  lemma LongAxisScales(m: Moments, hypot: (real, real) -> real) returns (l: real)
    requires IsHypot(hypot) && AxisLength(m, hypot) >= TINY
    ensures l == (m.xx + m.zz + hypot(m.xx - m.zz, 2.0 * m.xz)) / 2.0
    ensures IsUnit(Axis(m, hypot)) && Scales(m, Axis(m, hypot), l)
  {
    var d, b, t := m.xx - m.zz, 2.0 * m.xz, m.xx + m.zz;
    var s := hypot(d, b);
    var n := hypot(d + s, b);
    l := (t + s) / 2.0;
    HypotAt(hypot, d, b);
    HypotAt(hypot, d + s, b);
    hide IsHypot, Scales;
    UnitAfterScaling(d + s, b, n);
    ScaledEigen(m, d, b, s, t, n);
  }

  lemma HypotAt(hypot: (real, real) -> real, a: real, b: real)
    requires IsHypot(hypot)
    ensures hypot(a, b) >= 0.0 && hypot(a, b) * hypot(a, b) == a * a + b * b
  {
  }

  lemma RawTimes(m: Moments, d: real, b: real, s: real, t: real)
    requires d == m.xx - m.zz && b == 2.0 * m.xz && t == m.xx + m.zz
    requires (t + d) * (d + s) + b * b == (t + s) * (d + s)
    requires b * (d + s) + (t - d) * b == (t + s) * b
    ensures m.xx * (d + s) + m.xz * b == (t + s) / 2.0 * (d + s)
    ensures m.xz * (d + s) + m.zz * b == (t + s) / 2.0 * b
  {
    assert (t + d) * (d + s) == 2.0 * (m.xx * (d + s));
    assert b * b == 2.0 * (m.xz * b);
    assert b * (d + s) == 2.0 * (m.xz * (d + s));
    assert (t - d) * b == 2.0 * (m.zz * b);
    assert (t + s) * (d + s) == 2.0 * ((t + s) / 2.0 * (d + s));
    assert (t + s) * b == 2.0 * ((t + s) / 2.0 * b);
  }

  // ---------------------------------------------------------------- when the axis is the principal one

  lemma SquareNonNegative(x: real)
    ensures x * x >= 0.0
  {
  }

  /** A root of d*d + b*b reaches at least |d|. */
  lemma SpreadCoversGap(d: real, b: real, s: real)
    requires s >= 0.0 && s * s == d * d + b * b
    ensures s >= d && s >= -d
  {
    SquareNonNegative(b);
    assert (-d) * (-d) == d * d;
    if s < d {
      SquareLess(s, d);
    } else if s < -d {
      SquareLess(s, -d);
    }
  }

  lemma SquareLess(a: real, b: real)
    requires 0.0 <= a < b
    ensures a * a < b * b
  {
    var f := (b - a) * (b + a);
    ProductPositive(b - a, b + a, f);
    assert f == b * b - a * a;
  }

  lemma SquareIsZero(b: real)
    requires b * b == 0.0
    ensures b == 0.0
  {
    if b > 0.0 {
      ProductPositive(b, b, 0.0);
    } else if b < 0.0 {
      assert (-b) * (-b) == b * b;
      ProductPositive(-b, -b, 0.0);
    }
  }

  /** The gap between the larger eigenvalue and the spread along any direction (p, q). */
  lemma GapNonNegative(d: real, b: real, s: real, p: real, q: real)
    requires s >= 0.0 && s * s == d * d + b * b
    ensures (s - d) * (p * p) - 2.0 * b * (p * q) + (s + d) * (q * q) >= 0.0
  {
    SpreadCoversGap(d, b, s);
    var gap := (s - d) * (p * p) - 2.0 * b * (p * q) + (s + d) * (q * q);
    if s + d == 0.0 {
      assert s == -d && s * s == d * d;
      SquareIsZero(b);
      SquareNonNegative(p);
      assert gap == (s - d) * (p * p);
    } else {
      var e := b * p - (s + d) * q;
      SquareNonNegative(e);
      GapTimes(d, b, s, p, q);
      NonNegativeFactor(gap, s + d, e * e);
    }
  }

  lemma GapTimes(d: real, b: real, s: real, p: real, q: real)
    requires s * s == d * d + b * b
    ensures ((s - d) * (p * p) - 2.0 * b * (p * q) + (s + d) * (q * q)) * (s + d)
            == (b * p - (s + d) * q) * (b * p - (s + d) * q)
  {
    var w := s + d;
    var pp, pq, qq := p * p, p * q, q * q;
    assert (s - d) * w == b * b;
    assert (s - d) * pp * w == b * b * pp by { assert (s - d) * pp * w == (s - d) * w * pp; }
    assert ((s - d) * pp - 2.0 * b * pq + w * qq) * w == b * b * pp - 2.0 * b * pq * w + w * w * qq;
    assert (b * p - w * q) * (b * p - w * q) == b * b * pp - 2.0 * b * pq * w + w * w * qq;
  }

  lemma NonNegativeFactor(x: real, f: real, y: real)
    requires f > 0.0 && x * f == y && y >= 0.0
    ensures x >= 0.0
  {
  }

  lemma SpreadGap(m: Moments, w: Point, d: real, b: real, s: real, t: real)
    requires d == m.xx - m.zz && b == 2.0 * m.xz && t == m.xx + m.zz && IsUnit(w)
    ensures t + s - 2.0 * m.Along(w) == (s - d) * (w.x * w.x) - 2.0 * b * (w.x * w.z) + (s + d) * (w.z * w.z)
  {
    var pp, pq, qq := w.x * w.x, w.x * w.z, w.z * w.z;
    assert m.Along(w) == m.xx * pp + 2.0 * m.xz * pq + m.zz * qq;
    assert (t + s) * (pp + qq) == t + s;
    assert 2.0 * m.xx * pp == (t + d) * pp && 2.0 * m.zz * qq == (t - d) * qq && 4.0 * m.xz * pq == 2.0 * b * pq;
  }

  lemma AlongEigen(m: Moments, v: Point, l: real)
    requires IsUnit(v) && Scales(m, v, l)
    ensures m.Along(v) == l
  {
    var a, b := m.xx * v.x + m.xz * v.z, m.xz * v.x + m.zz * v.z;
    assert m.Along(v) == v.x * a + v.z * b;
    assert v.x * (l * v.x) + v.z * (l * v.z) == l * (v.x * v.x + v.z * v.z);
  }

  lemma LongAxisIsPrincipal(m: Moments, hypot: (real, real) -> real)
    requires IsHypot(hypot) && AxisLength(m, hypot) >= TINY
    ensures IsPrincipal(m, Axis(m, hypot))
  {
    var v := Axis(m, hypot);
    var l := LongAxisScales(m, hypot);
    AlongEigen(m, v, l);
    var d, b, t := m.xx - m.zz, 2.0 * m.xz, m.xx + m.zz;
    var s := hypot(d, b);
    HypotAt(hypot, d, b);
    forall w | IsUnit(w) ensures m.Along(w) <= m.Along(v) {
      hide IsUnit, Moments.Along, Axis, IsHypot, Scales;
      SpreadGap(m, w, d, b, s, t);
      GapNonNegative(d, b, s, w.x, w.z);
    }
  }

  lemma AlongDiagonal(m: Moments, w: Point)
    requires m.xz == 0.0
    ensures m.Along(w) == m.xx * (w.x * w.x) + m.zz * (w.z * w.z)
  {
  }

  lemma Weighted(a: real, b: real, p: real, q: real)
    requires a >= b && p >= 0.0 && q >= 0.0 && p + q == 1.0
    ensures a * p + b * q <= a
  {
    assert a * p + a * q == a * (p + q);
    var d := a - b;
    assert d * q >= 0.0;
    assert d * q == a * q - b * q;
  }

  /** The fallback axis (1, 0) against a given matrix. */
  lemma XAxisIs(m: Moments)
    ensures IsEigenvector(m, Point(1.0, 0.0)) <==> m.xz == 0.0
    ensures IsPrincipal(m, Point(1.0, 0.0)) <==> m.xz == 0.0 && m.xx >= m.zz
  {
    var v := Point(1.0, 0.0);
    assert m.Times(v) == Point(m.xx, m.xz);
    if m.xz == 0.0 { assert Scales(m, v, m.xx); }
    if IsEigenvector(m, v) {
      var l :| Scales(m, v, l);
      assert l * 0.0 == m.xz;
    }
    var u := Point(0.0, 1.0);
    assert IsUnit(u) && m.Along(u) == m.zz && m.Along(v) == m.xx;
    if m.xz == 0.0 && m.xx >= m.zz {
      forall w | IsUnit(w) ensures m.Along(w) <= m.xx {
        SquareNonNegative(w.x);
        SquareNonNegative(w.z);
        AlongDiagonal(m, w);
        Weighted(m.xx, m.zz, w.x * w.x, w.z * w.z);
      }
    }
  }

  /** Exactly when the closed form yields an eigenvector, and exactly when it is the one with
      most of the spread. Below the length threshold the fallback is blind to the data. */
  lemma AxisIsPrincipal(m: Moments, hypot: (real, real) -> real)
    requires IsHypot(hypot)
    ensures IsUnit(Axis(m, hypot))
    ensures IsEigenvector(m, Axis(m, hypot)) <==> AxisLength(m, hypot) >= 0.000000000001 || m.xz == 0.0
    ensures IsPrincipal(m, Axis(m, hypot)) <==>
      AxisLength(m, hypot) >= 0.000000000001 || (m.xz == 0.0 && m.xx >= m.zz)
  {
    if AxisLength(m, hypot) >= TINY {
      var l := LongAxisScales(m, hypot);
      LongAxisIsPrincipal(m, hypot);
    } else {
      XAxisIs(m);
    }
  }

  /** At length exactly zero the fallback is still an eigenvector, of the smaller eigenvalue
      unless both are equal. */
  lemma ZeroLengthAxis(m: Moments, hypot: (real, real) -> real)
    requires IsHypot(hypot) && AxisLength(m, hypot) == 0.0
    ensures m.xz == 0.0 && m.xx <= m.zz && IsEigenvector(m, Axis(m, hypot))
  {
    var d, b := m.xx - m.zz, 2.0 * m.xz;
    var s := hypot(d, b);
    HypotAt(hypot, d, b);
    HypotAt(hypot, d + s, b);
    SquareNonNegative(d + s);
    SquareNonNegative(b);
    SquareIsZero(b);
    SquareIsZero(d + s);
    SpreadCoversGap(d, b, s);
    XAxisIs(m);
  }

  lemma SameRoot(s: real, r: real)
    requires s >= 0.0 && r >= 0.0 && s * s == r * r
    ensures s == r
  {
    if s < r { SquareLess(s, r); } else if s > r { SquareLess(r, s); }
  }

  /** Whenever the moments are aligned with the lattice axes and the spread is larger along z
      (a stripe painted along z, say), the length is zero and the fallback picks the direction
      across the stripe. */
  lemma StripeAlongZ(m: Moments, hypot: (real, real) -> real)
    requires IsHypot(hypot) && m.xz == 0.0 && m.xx < m.zz
    ensures Axis(m, hypot) == Point(1.0, 0.0) && !IsPrincipal(m, Axis(m, hypot))
  {
    var d := m.xx - m.zz;
    var s := hypot(d, 0.0);
    HypotAt(hypot, d, 0.0);
    HypotAt(hypot, 0.0, 0.0);
    hide IsHypot;
    assert (-d) * (-d) == d * d;
    SameRoot(s, -d);
    SquareIsZero(hypot(0.0, 0.0));
    XAxisIs(m);
    hide IsPrincipal;
  }

  // ---------------------------------------------------------------- the rectangle of a run

  ghost function SumOf(source: seq<real>, cells: seq<int>): Point
    requires Located(source, cells)
  {
    if |cells| == 0 then Point(0.0, 0.0)
    else
      var s, p := SumOf(source, cells[..|cells|-1]), At(source, cells[|cells|-1]);
      Point(s.x + p.x, s.z + p.z)
  }

  ghost function Centre(source: seq<real>, cells: seq<int>): Point
    requires Located(source, cells) && |cells| > 0
  {
    var s := SumOf(source, cells);
    Point(s.x / |cells| as real, s.z / |cells| as real)
  }

  function AddMoment(m: Moments, dx: real, dz: real): Moments {
    Moments(m.xx + dx * dx, m.xz + dx * dz, m.zz + dz * dz)
  }

  ghost function MomentsAbout(source: seq<real>, cells: seq<int>, c: Point): Moments
    requires Located(source, cells)
  {
    if |cells| == 0 then Moments(0.0, 0.0, 0.0)
    else
      var p := At(source, cells[|cells|-1]);
      AddMoment(MomentsAbout(source, cells[..|cells|-1], c), p.x - c.x, p.z - c.z)
  }

  // ---------------------------------------------------------------- a stripe painted along z

  /** All cells of the run lie at one x, and not all at one z. */
  ghost predicate IsStripeAlongZ(source: seq<real>, cells: seq<int>, x: real)
    requires Located(source, cells)
  {
    && (forall e :: e in cells ==> At(source, e).x == x)
    && (exists e, f :: e in cells && f in cells && At(source, e).z != At(source, f).z)
  }

  lemma {:induction false} StripeSum(source: seq<real>, cells: seq<int>, x: real)
    requires Located(source, cells) && forall e :: e in cells ==> At(source, e).x == x
    ensures SumOf(source, cells).x == |cells| as real * x
  {
    if |cells| > 0 {
      StripeSum(source, cells[..|cells|-1], x);
      assert cells[|cells|-1] in cells;
      assert |cells| as real * x == (|cells| - 1) as real * x + x;
    }
  }

  lemma StripeCentre(source: seq<real>, cells: seq<int>, x: real)
    requires Located(source, cells) && |cells| > 0 && forall e :: e in cells ==> At(source, e).x == x
    ensures Centre(source, cells).x == x
  {
    StripeSum(source, cells, x);
    QuotientIs(SumOf(source, cells).x, |cells| as real, x);
  }

  lemma QuotientIs(s: real, n: real, x: real)
    requires n > 0.0 && s == n * x
    ensures s / n == x
  {
  }

  lemma {:induction false} StripeMoments(source: seq<real>, cells: seq<int>, c: Point)
    requires Located(source, cells) && forall e :: e in cells ==> At(source, e).x == c.x
    ensures MomentsAbout(source, cells, c).xx == 0.0 && MomentsAbout(source, cells, c).xz == 0.0
    ensures MomentsAbout(source, cells, c).zz >= 0.0
  {
    if |cells| > 0 {
      var front, last := cells[..|cells|-1], cells[|cells|-1];
      StripeMoments(source, front, c);
      assert last in cells;
      AddMomentGrows(MomentsAbout(source, front, c), At(source, last).z - c.z);
      hide AddMoment;
    }
  }

  lemma {:induction false} StripeSpread(source: seq<real>, cells: seq<int>, c: Point, e: int)
    requires Located(source, cells) && forall f :: f in cells ==> At(source, f).x == c.x
    requires e in cells && At(source, e).z != c.z
    ensures MomentsAbout(source, cells, c).zz > 0.0
  {
    var front, last := cells[..|cells|-1], cells[|cells|-1];
    assert cells == front + [last];
    StripeMoments(source, front, c);
    AddMomentGrows(MomentsAbout(source, front, c), At(source, last).z - c.z);
    hide AddMoment;
    if last != e { StripeSpread(source, front, c, e); }
  }

  /** One more cell at the centre's x adds to the spread along z alone. */
  lemma AddMomentGrows(m: Moments, dz: real)
    ensures AddMoment(m, 0.0, dz).xx == m.xx && AddMoment(m, 0.0, dz).xz == m.xz
    ensures AddMoment(m, 0.0, dz).zz >= m.zz && (dz != 0.0 ==> AddMoment(m, 0.0, dz).zz > m.zz)
  {
    var q := dz * dz;
    if dz > 0.0 { ProductPositive(dz, dz, q); }
    if dz < 0.0 { ProductPositive(-dz, -dz, q); }
    assert AddMoment(m, 0.0, dz).zz == m.zz + q;
  }

  /** Every stripe painted along z reaches the fallback, which lies across it. */
  lemma StripeGetsTheXAxis(source: seq<real>, cells: seq<int>, x: real, hypot: (real, real) -> real)
    requires Located(source, cells) && |cells| > 0 && IsStripeAlongZ(source, cells, x) && IsHypot(hypot)
    ensures var m := MomentsAbout(source, cells, Centre(source, cells));
      && m.xx == 0.0 && m.xz == 0.0 && m.zz > 0.0
      && Axis(m, hypot) == Point(1.0, 0.0) && !IsPrincipal(m, Axis(m, hypot))
  {
    var c := Centre(source, cells);
    StripeCentre(source, cells, x);
    var e, f :| e in cells && f in cells && At(source, e).z != At(source, f).z;
    StripeMoments(source, cells, c);
    StripeSpread(source, cells, c, if At(source, e).z != c.z then e else f);
    StripeAlongZ(MomentsAbout(source, cells, c), hypot);
  }

  /** Coordinates of `p` in the frame of the run. */
  function AlongOf(p: Point, c: Point, u: Point): real {
    (p.x - c.x) * u.x + (p.z - c.z) * u.z
  }

  function AcrossOf(p: Point, c: Point, u: Point): real {
    -(p.x - c.x) * u.z + (p.z - c.z) * u.x
  }

  function Corner(c: Point, u: Point, along: real, across: real): Point {
    Point(c.x + u.x * along - u.z * across, c.z + u.z * along + u.x * across)
  }

  datatype Box = Box(alongLow: real, alongHigh: real, acrossLow: real, acrossHigh: real)

  /** `b` is the tightest box, in the frame (c, u), around the cells. */
  ghost predicate Bounds(source: seq<real>, cells: seq<int>, c: Point, u: Point, b: Box)
    requires Located(source, cells)
  {
    && (forall e :: e in cells ==> b.alongLow <= AlongOf(At(source, e), c, u) <= b.alongHigh)
    && (forall e :: e in cells ==> b.acrossLow <= AcrossOf(At(source, e), c, u) <= b.acrossHigh)
    && (exists e :: e in cells && AlongOf(At(source, e), c, u) == b.alongLow)
    && (exists e :: e in cells && AlongOf(At(source, e), c, u) == b.alongHigh)
    && (exists e :: e in cells && AcrossOf(At(source, e), c, u) == b.acrossLow)
    && (exists e :: e in cells && AcrossOf(At(source, e), c, u) == b.acrossHigh)
  }

  /** The frame coordinates give the point back when the axis is a unit vector. */
  lemma CornerOfPoint(p: Point, c: Point, u: Point)
    requires IsUnit(u)
    ensures Corner(c, u, AlongOf(p, c, u), AcrossOf(p, c, u)) == p
  {
    var dx, dz := p.x - c.x, p.z - c.z;
    assert u.x * (dx * u.x + dz * u.z) - u.z * (-dx * u.z + dz * u.x) == dx * (u.x * u.x + u.z * u.z);
    assert u.z * (dx * u.x + dz * u.z) + u.x * (-dx * u.z + dz * u.x) == dz * (u.x * u.x + u.z * u.z);
  }

  /** p = p0 + s (p1 - p0) + t (p3 - p0) with both weights between 0 and 1. */
  ghost predicate Combines(p: Point, p0: Point, p1: Point, p3: Point, s: real, t: real) {
    0.0 <= s <= 1.0 && 0.0 <= t <= 1.0 &&
    p == Point(p0.x + s * (p1.x - p0.x) + t * (p3.x - p0.x), p0.z + s * (p1.z - p0.z) + t * (p3.z - p0.z))
  }

  ghost predicate InRectangle(p: Point, p0: Point, p1: Point, p3: Point) {
    exists s, t :: Combines(p, p0, p1, p3, s, t)
  }

  /** The four points are the corners of a rectangle, in order. */
  ghost predicate IsRectangle(p0: Point, p1: Point, p2: Point, p3: Point) {
    && (p1.x - p0.x) * (p3.x - p0.x) + (p1.z - p0.z) * (p3.z - p0.z) == 0.0
    && p2 == Point(p1.x + p3.x - p0.x, p1.z + p3.z - p0.z)
  }

  lemma CornersAreRectangle(c: Point, u: Point, b: Box)
    ensures IsRectangle(Corner(c, u, b.alongLow, b.acrossLow), Corner(c, u, b.alongHigh, b.acrossLow),
                        Corner(c, u, b.alongHigh, b.acrossHigh), Corner(c, u, b.alongLow, b.acrossHigh))
  {
    var da, dc := b.alongHigh - b.alongLow, b.acrossHigh - b.acrossLow;
    assert (u.x * da) * (-u.z * dc) + (u.z * da) * (u.x * dc) == 0.0;
  }

  lemma Fraction(lo: real, hi: real, x: real) returns (s: real)
    requires lo <= x <= hi
    ensures 0.0 <= s <= 1.0 && x == lo + s * (hi - lo)
  {
    var w := hi - lo;
    if w > 0.0 {
      s := (x - lo) / w;
      FractionBounds(x - lo, w, s);
      assert s * (hi - lo) == s * w;
    } else {
      s := 0.0;
      assert 0.0 * w == 0.0;
    }
  }

  lemma FractionBounds(a: real, w: real, s: real)
    requires w > 0.0 && 0.0 <= a <= w && s == a / w
    ensures 0.0 <= s <= 1.0 && s * w == a
  {
    assert s * w == a;
    NonNegativeFactor(s, w, a);
    assert (1.0 - s) * w == w - a;
    NonNegativeFactor(1.0 - s, w, w - a);
  }

  lemma Interpolates(v: real, low: real, d: real, s: real, x: real)
    requires x == low + s * d
    ensures v * x == v * low + s * (v * d)
  {
    assert v * (s * d) == s * (v * d);
  }

  lemma Difference(v: real, low: real, high: real)
    ensures v * high - v * low == v * (high - low)
  {
  }

  lemma CornerInRectangle(c: Point, u: Point, b: Box, along: real, across: real)
    requires b.alongLow <= along <= b.alongHigh && b.acrossLow <= across <= b.acrossHigh
    ensures InRectangle(Corner(c, u, along, across), Corner(c, u, b.alongLow, b.acrossLow),
                        Corner(c, u, b.alongHigh, b.acrossLow), Corner(c, u, b.alongLow, b.acrossHigh))
  {
    hide Corner, Combines;
    var s := Fraction(b.alongLow, b.alongHigh, along);
    var t := Fraction(b.acrossLow, b.acrossHigh, across);
    CornerCombines(c, u, b, along, across, s, t);
  }

  /** `x` divides the way from `lo` to `hi` in the proportion `s`. */
  ghost predicate Weighs(x: real, lo: real, hi: real, s: real) {
    x == lo + s * (hi - lo)
  }

  lemma CornerCombines(c: Point, u: Point, b: Box, along: real, across: real, s: real, t: real)
    requires 0.0 <= s <= 1.0 && 0.0 <= t <= 1.0
    requires Weighs(along, b.alongLow, b.alongHigh, s) && Weighs(across, b.acrossLow, b.acrossHigh, t)
    ensures Combines(Corner(c, u, along, across), Corner(c, u, b.alongLow, b.acrossLow),
                     Corner(c, u, b.alongHigh, b.acrossLow), Corner(c, u, b.alongLow, b.acrossHigh), s, t)
  {
    hide Weighs, Corner, Off;
    CornerIs(c, u, along, across);
    CornerIs(c, u, b.alongLow, b.acrossLow);
    CornerIs(c, u, b.alongHigh, b.acrossLow);
    CornerIs(c, u, b.alongLow, b.acrossHigh);
    OffCombines(c.x, u.x, -u.z, b.alongLow, b.alongHigh, along, s, b.acrossLow, b.acrossHigh, across, t);
    OffCombines(c.z, u.z, u.x, b.alongLow, b.alongHigh, along, s, b.acrossLow, b.acrossHigh, across, t);
  }

  /** One coordinate of the point at (a, b) in a frame. */
  function Off(o: real, p: real, q: real, a: real, b: real): real {
    o + p * a + q * b
  }

  lemma CornerIs(c: Point, u: Point, along: real, across: real)
    ensures Corner(c, u, along, across) == Point(Off(c.x, u.x, -u.z, along, across), Off(c.z, u.z, u.x, along, across))
  {
    var q := -u.z;
    assert q * across == -(u.z * across);
  }

  /** One coordinate of a point of the rectangle, from that coordinate of three corners. */
  lemma OffCombines(o: real, p: real, q: real, al: real, ah: real, a: real, s: real, cl: real, ch: real, c: real,
                    t: real)
    requires Weighs(a, al, ah, s) && Weighs(c, cl, ch, t)
    ensures Off(o, p, q, a, c) == Off(o, p, q, al, cl) + s * (Off(o, p, q, ah, cl) - Off(o, p, q, al, cl))
                                  + t * (Off(o, p, q, al, ch) - Off(o, p, q, al, cl))
  {
    Interpolates(p, al, ah - al, s, a);
    Interpolates(q, cl, ch - cl, t, c);
    Difference(p, al, ah);
    Difference(q, cl, ch);
    assert Off(o, p, q, ah, cl) - Off(o, p, q, al, cl) == p * (ah - al);
    assert Off(o, p, q, al, ch) - Off(o, p, q, al, cl) == q * (ch - cl);
  }

  /** The four corners span a rectangle that holds every cell of the run. */
  lemma RectangleHoldsRun(source: seq<real>, cells: seq<int>, c: Point, u: Point, b: Box, e: int)
    requires Located(source, cells) && IsUnit(u) && Bounds(source, cells, c, u, b) && e in cells
    ensures InRectangle(At(source, e), Corner(c, u, b.alongLow, b.acrossLow),
                        Corner(c, u, b.alongHigh, b.acrossLow), Corner(c, u, b.alongLow, b.acrossHigh))
  {
    hide InRectangle;
    var p := At(source, e);
    CornerOfPoint(p, c, u);
    CornerInRectangle(c, u, b, AlongOf(p, c, u), AcrossOf(p, c, u));
  }

  /** One side runs along the axis, and every side has a cell of the run on it. */
  ghost predicate IsTight(source: seq<real>, cells: seq<int>, u: Point, p0: Point, p1: Point, p3: Point)
    requires Located(source, cells)
  {
    && (p1.x - p0.x) * u.z == (p1.z - p0.z) * u.x
    && (exists e, t :: e in cells && Combines(At(source, e), p0, p1, p3, 0.0, t))
    && (exists e, t :: e in cells && Combines(At(source, e), p0, p1, p3, 1.0, t))
    && (exists e, s :: e in cells && Combines(At(source, e), p0, p1, p3, s, 0.0))
    && (exists e, s :: e in cells && Combines(At(source, e), p0, p1, p3, s, 1.0))
  }

  lemma RectangleIsTight(source: seq<real>, cells: seq<int>, c: Point, u: Point, b: Box)
    requires Located(source, cells) && IsUnit(u) && Bounds(source, cells, c, u, b)
    ensures IsTight(source, cells, u, Corner(c, u, b.alongLow, b.acrossLow),
                    Corner(c, u, b.alongHigh, b.acrossLow), Corner(c, u, b.alongLow, b.acrossHigh))
  {
    hide Combines, AlongOf, AcrossOf, Corner, IsUnit, At;
    SideAlongAxis(c, u, b);
    var p0, p1 := Corner(c, u, b.alongLow, b.acrossLow), Corner(c, u, b.alongHigh, b.acrossLow);
    var p3 := Corner(c, u, b.alongLow, b.acrossHigh);
    var e1 :| e1 in cells && AlongOf(At(source, e1), c, u) == b.alongLow;
    var e2 :| e2 in cells && AlongOf(At(source, e2), c, u) == b.alongHigh;
    var e3 :| e3 in cells && AcrossOf(At(source, e3), c, u) == b.acrossLow;
    var e4 :| e4 in cells && AcrossOf(At(source, e4), c, u) == b.acrossHigh;
    hide Bounds;
    var t1 := OnLowSide(At(source, e1), c, u, b);
    var t2 := OnHighSide(At(source, e2), c, u, b);
    var s3 := OnNearSide(At(source, e3), c, u, b);
    var s4 := OnFarSide(At(source, e4), c, u, b);
    assert Combines(At(source, e1), p0, p1, p3, 0.0, t1) && Combines(At(source, e2), p0, p1, p3, 1.0, t2);
    assert Combines(At(source, e3), p0, p1, p3, s3, 0.0) && Combines(At(source, e4), p0, p1, p3, s4, 1.0);
  }

  lemma SideAlongAxis(c: Point, u: Point, b: Box)
    ensures var p0, p1 := Corner(c, u, b.alongLow, b.acrossLow), Corner(c, u, b.alongHigh, b.acrossLow);
      (p1.x - p0.x) * u.z == (p1.z - p0.z) * u.x
  {
    var d := b.alongHigh - b.alongLow;
    SideIs(c, u, b);
    hide Corner;
    var p0, p1 := Corner(c, u, b.alongLow, b.acrossLow), Corner(c, u, b.alongHigh, b.acrossLow);
    CrossIsZero(u.x, u.z, d, p1.x - p0.x, p1.z - p0.z);
  }

  lemma SideIs(c: Point, u: Point, b: Box)
    ensures var p0, p1 := Corner(c, u, b.alongLow, b.acrossLow), Corner(c, u, b.alongHigh, b.acrossLow);
      p1.x - p0.x == u.x * (b.alongHigh - b.alongLow) && p1.z - p0.z == u.z * (b.alongHigh - b.alongLow)
  {
    Difference(u.x, b.alongLow, b.alongHigh);
    Difference(u.z, b.alongLow, b.alongHigh);
  }

  lemma CrossIsZero(x: real, z: real, d: real, p: real, q: real)
    requires p == x * d && q == z * d
    ensures p * z == q * x
  {
    assert p * z == x * d * z;
    assert q * x == z * d * x;
  }

  lemma OnLowSide(p: Point, c: Point, u: Point, b: Box) returns (t: real)
    requires IsUnit(u) && AlongOf(p, c, u) == b.alongLow && b.acrossLow <= AcrossOf(p, c, u) <= b.acrossHigh
    ensures Combines(p, Corner(c, u, b.alongLow, b.acrossLow), Corner(c, u, b.alongHigh, b.acrossLow),
                     Corner(c, u, b.alongLow, b.acrossHigh), 0.0, t)
  {
    hide Combines, Corner, AlongOf, AcrossOf, IsUnit;
    t := Fraction(b.acrossLow, b.acrossHigh, AcrossOf(p, c, u));
    CornerOfPoint(p, c, u);
    CornerCombines(c, u, b, AlongOf(p, c, u), AcrossOf(p, c, u), 0.0, t);
  }

  lemma OnHighSide(p: Point, c: Point, u: Point, b: Box) returns (t: real)
    requires IsUnit(u) && AlongOf(p, c, u) == b.alongHigh && b.acrossLow <= AcrossOf(p, c, u) <= b.acrossHigh
    ensures Combines(p, Corner(c, u, b.alongLow, b.acrossLow), Corner(c, u, b.alongHigh, b.acrossLow),
                     Corner(c, u, b.alongLow, b.acrossHigh), 1.0, t)
  {
    hide Combines, Corner, AlongOf, AcrossOf, IsUnit;
    t := Fraction(b.acrossLow, b.acrossHigh, AcrossOf(p, c, u));
    CornerOfPoint(p, c, u);
    CornerCombines(c, u, b, AlongOf(p, c, u), AcrossOf(p, c, u), 1.0, t);
  }

  lemma OnNearSide(p: Point, c: Point, u: Point, b: Box) returns (s: real)
    requires IsUnit(u) && AcrossOf(p, c, u) == b.acrossLow && b.alongLow <= AlongOf(p, c, u) <= b.alongHigh
    ensures Combines(p, Corner(c, u, b.alongLow, b.acrossLow), Corner(c, u, b.alongHigh, b.acrossLow),
                     Corner(c, u, b.alongLow, b.acrossHigh), s, 0.0)
  {
    hide Combines, Corner, AlongOf, AcrossOf, IsUnit;
    s := Fraction(b.alongLow, b.alongHigh, AlongOf(p, c, u));
    CornerOfPoint(p, c, u);
    CornerCombines(c, u, b, AlongOf(p, c, u), AcrossOf(p, c, u), s, 0.0);
  }

  lemma OnFarSide(p: Point, c: Point, u: Point, b: Box) returns (s: real)
    requires IsUnit(u) && AcrossOf(p, c, u) == b.acrossHigh && b.alongLow <= AlongOf(p, c, u) <= b.alongHigh
    ensures Combines(p, Corner(c, u, b.alongLow, b.acrossLow), Corner(c, u, b.alongHigh, b.acrossLow),
                     Corner(c, u, b.alongLow, b.acrossHigh), s, 1.0)
  {
    hide Combines, Corner, AlongOf, AcrossOf, IsUnit;
    s := Fraction(b.alongLow, b.alongHigh, AlongOf(p, c, u));
    CornerOfPoint(p, c, u);
    CornerCombines(c, u, b, AlongOf(p, c, u), AcrossOf(p, c, u), s, 1.0);
  }

  // ---------------------------------------------------------------- the loops over a run

  method FindCentre(source: seq<real>, cells: seq<int>) returns (c: Point)
    requires Located(source, cells) && |cells| > 0
    ensures c == Centre(source, cells)
  {
    var cx, cz := 0.0, 0.0;
    for k := 0 to |cells|
      invariant Point(cx, cz) == SumOf(source, cells[..k])
    {
      assert cells[..k + 1][..k] == cells[..k];
      cx := cx + source[cells[k] * 3];
      cz := cz + source[cells[k] * 3 + 2];
    }
    assert cells[..|cells|] == cells;
    c := Point(cx / |cells| as real, cz / |cells| as real);
  }

  lemma MomentsNone(source: seq<real>, cells: seq<int>, c: Point)
    requires Located(source, cells)
    ensures MomentsAbout(source, cells[..0], c) == Moments(0.0, 0.0, 0.0)
  {
  }

  lemma MomentsMore(source: seq<real>, cells: seq<int>, k: nat, c: Point, dx: real, dz: real)
    requires Located(source, cells) && k < |cells|
    requires dx == At(source, cells[k]).x - c.x && dz == At(source, cells[k]).z - c.z
    ensures MomentsAbout(source, cells[..k + 1], c) == AddMoment(MomentsAbout(source, cells[..k], c), dx, dz)
  {
    hide AddMoment, At;
    assert cells[..k + 1][..k] == cells[..k];
  }

  method FindMoments(source: seq<real>, cells: seq<int>, c: Point) returns (m: Moments)
    requires Located(source, cells)
    ensures m == MomentsAbout(source, cells, c)
  {
    MomentsNone(source, cells, c);
    hide MomentsAbout;
    var xx, xz, zz := 0.0, 0.0, 0.0;
    for k := 0 to |cells|
      invariant Moments(xx, xz, zz) == MomentsAbout(source, cells[..k], c)
    {
      var dx := source[cells[k] * 3] - c.x;
      var dz := source[cells[k] * 3 + 2] - c.z;
      MomentsMore(source, cells, k, c, dx, dz);
      xx := xx + dx * dx;
      xz := xz + dx * dz;
      zz := zz + dz * dz;
    }
    assert cells[..|cells|] == cells;
    m := Moments(xx, xz, zz);
  }

  lemma BoundsMore(source: seq<real>, cells: seq<int>, k: nat, c: Point, u: Point, b: Box, along: real, across: real)
    requires 0 < k < |cells| && Located(source, cells) && Bounds(source, cells[..k], c, u, b)
    requires along == AlongOf(At(source, cells[k]), c, u) && across == AcrossOf(At(source, cells[k]), c, u)
    ensures Bounds(source, cells[..k + 1], c, u,
                   Box(if along < b.alongLow then along else b.alongLow,
                       if along > b.alongHigh then along else b.alongHigh,
                       if across < b.acrossLow then across else b.acrossLow,
                       if across > b.acrossHigh then across else b.acrossHigh))
  {
    hide AlongOf, AcrossOf, At;
    assert cells[..k + 1] == cells[..k] + [cells[k]];
    assert forall e :: e in cells[..k + 1] <==> e in cells[..k] || e == cells[k];
  }

  /** Lows start at plus infinity and highs at minus infinity, so the first cell sets all four. */
  method FindBox(source: seq<real>, cells: seq<int>, c: Point, u: Point) returns (b: Box)
    requires Located(source, cells) && |cells| > 0
    ensures Bounds(source, cells, c, u, b)
  {
    hide Bounds;
    b := Box(0.0, 0.0, 0.0, 0.0);
    for k := 0 to |cells|
      invariant k > 0 ==> Bounds(source, cells[..k], c, u, b)
    {
      var dx := source[cells[k] * 3] - c.x;
      var dz := source[cells[k] * 3 + 2] - c.z;
      var along := dx * u.x + dz * u.z;
      var across := -dx * u.z + dz * u.x;
      if k == 0 {
        BoundsOne(source, cells, c, u, along, across);
        b := Box(along, along, across, across);
      } else {
        BoundsMore(source, cells, k, c, u, b, along, across);
        b := Box(if along < b.alongLow then along else b.alongLow,
                 if along > b.alongHigh then along else b.alongHigh,
                 if across < b.acrossLow then across else b.acrossLow,
                 if across > b.acrossHigh then across else b.acrossHigh);
      }
    }
    assert cells[..|cells|] == cells;
  }

  lemma BoundsOne(source: seq<real>, cells: seq<int>, c: Point, u: Point, along: real, across: real)
    requires |cells| > 0 && Located(source, cells)
    requires along == AlongOf(At(source, cells[0]), c, u) && across == AcrossOf(At(source, cells[0]), c, u)
    ensures Bounds(source, cells[..1], c, u, Box(along, along, across, across))
  {
    hide AlongOf, AcrossOf, At;
    assert cells[..1] == [cells[0]];
  }
}
