/** What the fit of a run amounts to, told by sums over its cells: the centre, the spread the axis
    takes, and exactly which runs are drawn. */
module PaintMeans {
  import opened Lattice
  import opened Sums
  import opened PaintFit
  import opened FitMarkings

  // ---------------------------------------------------------------- centre and spread

  /** The coordinates of a cell, 0 for what is no cell. */
  function X(source: seq<real>, e: int): real {
    if 0 <= e && 3 * e + 2 < |source| then source[3 * e] else 0.0
  }

  function Z(source: seq<real>, e: int): real {
    if 0 <= e && 3 * e + 2 < |source| then source[3 * e + 2] else 0.0
  }

  ghost function XOf(source: seq<real>): int -> real {
    (e: int) => X(source, e)
  }

  ghost function ZOf(source: seq<real>): int -> real {
    (e: int) => Z(source, e)
  }

  lemma {:induction false} SumsAre(source: seq<real>, cells: seq<int>)
    requires Located(source, cells)
    ensures SumOf(source, cells) == Point(Total(XOf(source), cells), Total(ZOf(source), cells))
  {
    if |cells| > 0 { SumsAre(source, cells[..|cells|-1]); }
  }

  /** The centre is the mean of the cells' positions. */
  lemma CentreIs(source: seq<real>, cells: seq<int>)
    requires Located(source, cells) && |cells| > 0
    ensures |cells| as real * Centre(source, cells).x == Total(XOf(source), cells)
    ensures |cells| as real * Centre(source, cells).z == Total(ZOf(source), cells)
  {
    SumsAre(source, cells);
    var s := SumOf(source, cells);
    hide SumOf, Total;
    TimesOver(|cells| as real, s.x);
    TimesOver(|cells| as real, s.z);
  }

  lemma TimesOver(n: real, s: real)
    requires n > 0.0
    ensures n * (s / n) == s
  {
  }

  /** The squared distance of a cell from the centre along a direction. */
  function SpreadOf(source: seq<real>, c: Point, w: Point, e: int): real {
    Square((X(source, e) - c.x) * w.x + (Z(source, e) - c.z) * w.z)
  }

  ghost function SpreadAlong(source: seq<real>, c: Point, w: Point): int -> real {
    (e: int) => SpreadOf(source, c, w, e)
  }

  function Square(x: real): real {
    x * x
  }

  /** The moments hold the spread along every direction. */
  lemma {:induction false} SpreadIs(source: seq<real>, cells: seq<int>, c: Point, w: Point)
    requires Located(source, cells)
    ensures MomentsAbout(source, cells, c).Along(w) == Total(SpreadAlong(source, c, w), cells)
  {
    hide AddMoment, Moments.Along, SpreadOf;
    if |cells| == 0 {
      NoSpread(w);
    } else {
      var front, e := cells[..|cells|-1], cells[|cells|-1];
      SpreadIs(source, front, c, w);
      SpreadMore(source, c, w, MomentsAbout(source, front, c), e);
    }
  }

  lemma SpreadMore(source: seq<real>, c: Point, w: Point, m: Moments, e: int)
    requires 0 <= e && 3 * e + 2 < |source|
    ensures AddMoment(m, At(source, e).x - c.x, At(source, e).z - c.z).Along(w)
      == m.Along(w) + SpreadOf(source, c, w, e)
  {
    assert X(source, e) == At(source, e).x && Z(source, e) == At(source, e).z;
    hide X, Z;
    AddedSpread(m, At(source, e).x - c.x, At(source, e).z - c.z, w);
    hide AddMoment, Moments.Along, Square;
  }

  lemma NoSpread(w: Point)
    ensures Moments(0.0, 0.0, 0.0).Along(w) == 0.0
  {
  }

  lemma AddedSpread(m: Moments, dx: real, dz: real, w: Point)
    ensures AddMoment(m, dx, dz).Along(w) == m.Along(w) + Square(dx * w.x + dz * w.z)
  {
    var a, b := dx * w.x, dz * w.z;
    assert Square(a + b) == a * a + 2.0 * (a * b) + b * b;
    assert (m.xx + dx * dx) * w.x * w.x == m.xx * w.x * w.x + a * a;
    assert 2.0 * (m.xz + dx * dz) * w.x * w.z == 2.0 * m.xz * w.x * w.z + 2.0 * (a * b);
    assert (m.zz + dz * dz) * w.z * w.z == m.zz * w.z * w.z + b * b;
  }

  /** Above the length threshold no direction has more of the run's spread than the axis it gets. */
  lemma AxisTakesMostSpread(source: seq<real>, run: seq<int>, hypot: (real, real) -> real, w: Point)
    requires Located(source, run) && |run| > 0 && IsHypot(hypot) && IsUnit(w)
    requires AxisLength(MomentsAbout(source, run, Centre(source, run)), hypot) >= TINY
    ensures IsUnit(AxisOf(source, hypot, run))
    ensures Total(SpreadAlong(source, Centre(source, run), w), run)
         <= Total(SpreadAlong(source, Centre(source, run), AxisOf(source, hypot, run)), run)
  {
    var c, u := Centre(source, run), AxisOf(source, hypot, run);
    var m := MomentsAbout(source, run, c);
    AxisIsPrincipal(m, hypot);
    SpreadIs(source, run, c, w);
    SpreadIs(source, run, c, u);
    assert m.Along(w) <= m.Along(u);
  }

  // ---------------------------------------------------------------- spacing

  /** The cell on the right is a cell of the run. */
  predicate FollowedIn(g: Grid, run: seq<int>, e: int)
    requires g.side > 0
  {
    (e + 1) % g.side != 0 && e + 1 in run
  }

  /** One for each right-hand pair, and its length. */
  ghost function PairAt(g: Grid, run: seq<int>): int -> real
    requires g.side > 0
  {
    (e: int) => if FollowedIn(g, run, e) then 1.0 else 0.0
  }

  ghost function GapOf(g: Grid, source: seq<real>, hypot: (real, real) -> real, run: seq<int>, e: int): real
    requires g.side > 0
  {
    if FollowedIn(g, run, e) then hypot(X(source, e + 1) - X(source, e), Z(source, e + 1) - Z(source, e)) else 0.0
  }

  ghost function GapAt(g: Grid, source: seq<real>, hypot: (real, real) -> real, run: seq<int>): int -> real
    requires g.side > 0
  {
    (e: int) => GapOf(g, source, hypot, run, e)
  }

  /** The two running sums are the number of right-hand pairs and their total length. */
  lemma {:induction false} SpacingIs(g: Grid, source: seq<real>, hypot: (real, real) -> real, run: seq<int>,
                                     cells: seq<int>)
    requires g.side > 0 && Located(source, run) && Located(source, cells) && forall e :: e in cells ==> e in run
    ensures SpacingOf(g, source, hypot, run, cells).total == Total(GapAt(g, source, hypot, run), cells)
    ensures SpacingOf(g, source, hypot, run, cells).pairs as real == Total(PairAt(g, run), cells)
  {
    if |cells| > 0 {
      var e := cells[|cells|-1];
      assert e in cells;
      SpacingIs(g, source, hypot, run, cells[..|cells|-1]);
      GapIs(g, source, hypot, run, e);
      hide HasRight, FollowedIn, GapOf, Between;
    }
  }

  lemma GapIs(g: Grid, source: seq<real>, hypot: (real, real) -> real, run: seq<int>, e: int)
    requires g.side > 0 && Located(source, run) && e in run
    ensures 0 <= e && 3 * e + 2 < |source| && (HasRight(g, run, e) ==> 3 * (e + 1) + 2 < |source|)
    ensures FollowedIn(g, run, e) <==> HasRight(g, run, e)
    ensures GapOf(g, source, hypot, run, e) == if HasRight(g, run, e) then Between(source, hypot, e, e + 1) else 0.0
  {
    SameRow(e, g.side);
  }

  // ---------------------------------------------------------------- the fill test

  lemma FillCrossMultiplied(size: nat, total: real, pairs: nat, area: real)
    requires pairs > 0 && area > 0.0
    ensures var mean := total / pairs as real;
      size as real * (mean * mean) / area < MIN_MARKING_FILL <==>
      100.0 * (size as real * (total * total)) < 55.0 * ((pairs as real * pairs as real) * area)
  {
    var n, k := pairs as real, size as real;
    var mean := total / n;
    assert mean * n == total;
    var q, nn := mean * mean, n * n;
    assert q * nn == total * total by { SquareProduct(mean, n, total); }
    ProductPositive(n, n, nn);
    QuotientBelow(k * q, area, MIN_MARKING_FILL);
    ScaledBelow(k * q, MIN_MARKING_FILL * area, nn);
    assert (k * q) * nn == k * (total * total) by { assert (k * q) * nn == k * (q * nn); }
    assert (MIN_MARKING_FILL * area) * nn == MIN_MARKING_FILL * (nn * area);
  }

  lemma QuotientBelow(a: real, b: real, l: real)
    requires b > 0.0
    ensures a / b < l <==> a < l * b
  {
    var q := a / b;
    assert q * b == a;
    if q < l { ScaledBelow(q, l, b); } else { ScaledBelow(l, q, b); }
  }

  lemma ScaledBelow(a: real, b: real, f: real)
    requires f > 0.0
    ensures a < b <==> a * f < b * f
  {
    if a < b { MulLess(a, b, f); } else if b < a { MulLess(b, a, f); }
  }

  lemma MulLess(a: real, b: real, f: real)
    requires a < b && f > 0.0
    ensures a * f < b * f
  {
    var d, p := b - a, (b - a) * f;
    ProductPositive(d, f, p);
    assert p == b * f - a * f;
  }

  lemma BoundsUnique(source: seq<real>, cells: seq<int>, c: Point, u: Point, b: Box, d: Box)
    requires Located(source, cells) && Bounds(source, cells, c, u, b) && Bounds(source, cells, c, u, d)
    ensures b == d
  {
    hide At, AlongOf, AcrossOf;
  }

  /** The area of a box, and the sums over the run's right-hand pairs. */
  function AreaOf(b: Box): real {
    (b.alongHigh - b.alongLow) * (b.acrossHigh - b.acrossLow)
  }

  /** A run leaves too much of its rectangle bare: it has a right-hand pair and a box of positive
      area, and its cells, each taken as the square of the mean right-hand distance, fill less than
      55 hundredths of that area. Both sides are multiplied out. */
  ghost predicate IsBare(g: Grid, source: seq<real>, hypot: (real, real) -> real, run: seq<int>, b: Box)
    requires g.side > 0
  {
    var pairs, total := Total(PairAt(g, run), run), Total(GapAt(g, source, hypot, run), run);
    && pairs > 0.0 && AreaOf(b) > 0.0
    && 100.0 * (|run| as real * (total * total)) < 55.0 * ((pairs * pairs) * AreaOf(b))
  }

  /** Exactly which runs draw nothing: those of fewer than six cells, and those that are bare in
      their tightest box. */
  lemma DrawsNothingExactly(g: Grid, source: seq<real>, hypot: (real, real) -> real, height: real,
                            run: seq<int>, piece: seq<Vertex>, b: Box)
    requires g.side > 0 && Located(source, run) && |run| > 0 && IsPiece(g, source, hypot, height, run, piece)
    requires Bounds(source, run, Centre(source, run), AxisOf(source, hypot, run), b)
    ensures piece == [] <==> |run| < 6 || IsBare(g, source, hypot, run, b)
  {
    hide Centre, AxisOf, Bounds, SpacingOf, Total, Quad, IsSparse, IsBare, Located;
    var s := SpacingOf(g, source, hypot, run, run);
    if |run| >= 6 {
      var d :| Bounds(source, run, Centre(source, run), AxisOf(source, hypot, run), d) &&
        piece == if IsSparse(|run|, s, d) then [] else Quad(Centre(source, run), AxisOf(source, hypot, run), d, height);
      BoundsUnique(source, run, Centre(source, run), AxisOf(source, hypot, run), b, d);
      QuadIs(Centre(source, run), AxisOf(source, hypot, run), d, height);
      SpacingIs(g, source, hypot, run, run);
      SparseIsBare(g, source, hypot, run, s, b);
    }
  }

  lemma SparseIsBare(g: Grid, source: seq<real>, hypot: (real, real) -> real, run: seq<int>, s: Spacing, b: Box)
    requires g.side > 0
    requires s.total == Total(GapAt(g, source, hypot, run), run) && s.pairs as real == Total(PairAt(g, run), run)
    ensures IsSparse(|run|, s, b) <==> IsBare(g, source, hypot, run, b)
  {
    hide Total, AreaOf;
    if s.pairs > 0 && AreaOf(b) > 0.0 { FillCrossMultiplied(|run|, s.total, s.pairs, AreaOf(b)); }
    SparseIs(|run|, s, b);
    hide IsSparse;
  }

  lemma SparseIs(size: nat, s: Spacing, b: Box)
    ensures IsSparse(size, s, b) <==>
      s.pairs > 0 && AreaOf(b) > 0.0 &&
      size as real * ((s.total / s.pairs as real) * (s.total / s.pairs as real)) / AreaOf(b) < MIN_MARKING_FILL
  {
  }
}
