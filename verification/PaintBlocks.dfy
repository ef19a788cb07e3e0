/** Solid paint is drawn: a full block of lattice cells at one spacing passes the fill test. */
module PaintBlocks {
  import opened Lattice
  import opened Sums
  import opened PaintFit
  import opened FitMarkings
  import opened PaintMeans

  // ---------------------------------------------------------------- runs with a mirror image

  /** `image` lists the cells of the run again, each with its x mirrored at `m` and its z kept. */
  ghost predicate Mirrors(source: seq<real>, run: seq<int>, image: seq<int>, m: real) {
    && Distinct(run) && Distinct(image) && SetOf(image) == SetOf(run) && |image| == |run|
    && forall k :: 0 <= k < |run| ==>
      X(source, image[k]) == 2.0 * m - X(source, run[k]) && Z(source, image[k]) == Z(source, run[k])
  }

  lemma MirrorCentre(source: seq<real>, run: seq<int>, image: seq<int>, m: real)
    requires Located(source, run) && |run| > 0 && Mirrors(source, run, image, m)
    ensures Centre(source, run).x == m
  {
    hide Total, Centre, X, Z;
    var f, g := XOf(source), (e: int) => 2.0 * m - X(source, e);
    TotalOver(f, g, run, image);
    TotalPermuted(f, run, image);
    TotalOpposite(f, g, run, 2.0 * m);
    CentreIs(source, run);
    var t, n, c := Total(f, run), |run| as real, Centre(source, run).x;
    hide Mirrors;
    SameFactor(n, t, c, m);
  }

  lemma SameFactor(n: real, t: real, c: real, m: real)
    requires n > 0.0 && t == n * c && t + t == n * (2.0 * m)
    ensures c == m
  {
    var d := c - m;
    assert n * (2.0 * m) == 2.0 * (n * m);
    assert n * d == n * c - n * m;
  }

  function Mixed(source: seq<real>, c: Point, e: int): real {
    (X(source, e) - c.x) * (Z(source, e) - c.z)
  }

  ghost function MixedOf(source: seq<real>, c: Point): int -> real {
    (e: int) => Mixed(source, c, e)
  }

  lemma {:induction false} MixedIs(source: seq<real>, cells: seq<int>, c: Point)
    requires Located(source, cells)
    ensures MomentsAbout(source, cells, c).xz == Total(MixedOf(source, c), cells)
  {
    hide AddMoment, Mixed;
    if |cells| > 0 {
      var front, e := cells[..|cells|-1], cells[|cells|-1];
      MixedIs(source, front, c);
      MixedMore(source, c, MomentsAbout(source, front, c), e);
    }
  }

  lemma MixedMore(source: seq<real>, c: Point, m: Moments, e: int)
    requires 0 <= e && 3 * e + 2 < |source|
    ensures AddMoment(m, At(source, e).x - c.x, At(source, e).z - c.z).xz == m.xz + Mixed(source, c, e)
  {
  }

  /** A run with a mirror image has no mixed moment. */
  lemma MirrorMixed(source: seq<real>, run: seq<int>, image: seq<int>, c: Point)
    requires Located(source, run) && Mirrors(source, run, image, c.x)
    ensures MomentsAbout(source, run, c).xz == 0.0
  {
    var f, g := MixedOf(source, c), (e: int) => -Mixed(source, c, e);
    forall k | 0 <= k < |run| ensures g(run[k]) == f(image[k]) { MixedFlips(source, c, run[k], image[k]); }
    hide Mixed;
    TotalOver(f, g, run, image);
    TotalPermuted(f, run, image);
    TotalOpposite(f, g, run, 0.0);
    MixedIs(source, run, c);
    assert |run| as real * 0.0 == 0.0;
  }

  lemma MixedFlips(source: seq<real>, c: Point, e: int, f: int)
    requires X(source, f) == 2.0 * c.x - X(source, e) && Z(source, f) == Z(source, e)
    ensures Mixed(source, c, f) == -Mixed(source, c, e)
  {
    var dx, dz := X(source, e) - c.x, Z(source, e) - c.z;
    assert X(source, f) - c.x == -dx;
    assert -dx * dz == -(dx * dz);
  }

  /** With no mixed moment the run gets the x axis, whichever way it lies. */
  lemma AlignedAxis(m: Moments, hypot: (real, real) -> real)
    requires IsHypot(hypot) && m.xz == 0.0
    ensures Axis(m, hypot) == Point(1.0, 0.0)
  {
    if m.xx < m.zz {
      StripeAlongZ(m, hypot);
    } else {
      var d := m.xx - m.zz;
      HypotAt(hypot, d, 0.0);
      HypotAt(hypot, 2.0 * d, 0.0);
      var s, n := hypot(d, 0.0), hypot(2.0 * d, 0.0);
      hide IsHypot;
      assert d * d == s * s;
      SameRoot(s, d);
      assert (2.0 * d) * (2.0 * d) == n * n;
      SameRoot(n, 2.0 * d);
    }
  }

  // ---------------------------------------------------------------- blocks

  /** Column and row of a cell, counted from the first cell of the block. */
  function Col(g: Grid, a: nat, e: int): int
    requires g.side > 0
  {
    (e - a) % g.side
  }

  function Row(g: Grid, a: nat, e: int): int
    requires g.side > 0
  {
    (e - a) / g.side
  }

  predicate InBlock(g: Grid, a: nat, w: nat, h: nat, e: int)
    requires g.side > 0
  {
    e >= a && Col(g, a, e) < w && Row(g, a, e) < h
  }

  /** The run is the full block of `w` columns and `h` rows from cell `a` on, within the lattice's
      rows, and its cells lie at one spacing `s`. */
  ghost predicate IsBlock(g: Grid, source: seq<real>, run: seq<int>, a: nat, w: nat, h: nat, o: Point, s: real)
    requires g.side > 0
  {
    && w > 0 && h > 0 && s > 0.0 && a % g.side + w <= g.side
    && Located(source, run) && Distinct(run) && (forall e :: e in run <==> InBlock(g, a, w, h, e))
    && forall e :: e in run ==> AtSpacing(g, source, a, o, s, e)
  }

  ghost predicate AtSpacing(g: Grid, source: seq<real>, a: nat, o: Point, s: real, e: int)
    requires g.side > 0
  {
    X(source, e) == o.x + s * Col(g, a, e) as real && Z(source, e) == o.z + s * Row(g, a, e) as real
  }

  lemma Place(g: Grid, a: nat, y: nat, x: nat)
    requires g.side > 0 && x < g.side
    ensures Col(g, a, a + y * g.side + x) == x && Row(g, a, a + y * g.side + x) == y
  {
    ModUnique(y * g.side + x, y, x, g.side);
  }

  /** The cell in the same row as far from the right end as `e` is from the left. */
  function Mirror(g: Grid, a: nat, w: nat, e: int): int
    requires g.side > 0
  {
    e + w - 1 - 2 * Col(g, a, e)
  }

  lemma MirrorIs(g: Grid, a: nat, w: nat, h: nat, e: int)
    requires g.side > 0 && w <= g.side && InBlock(g, a, w, h, e)
    ensures var f := Mirror(g, a, w, e);
      InBlock(g, a, w, h, f) && Col(g, a, f) == w - 1 - Col(g, a, e) && Row(g, a, f) == Row(g, a, e)
      && Mirror(g, a, w, f) == e
  {
    var x, y := Col(g, a, e), Row(g, a, e);
    assert e == a + y * g.side + x;
    RowNatural(g, a, e);
    assert Mirror(g, a, w, e) == a + y * g.side + (w - 1 - x);
    Place(g, a, y, w - 1 - x);
  }

  lemma RowNatural(g: Grid, a: nat, e: int)
    requires g.side > 0 && e >= a
    ensures Row(g, a, e) >= 0
  {
  }

  function Image(g: Grid, a: nat, w: nat, run: seq<int>): (t: seq<int>)
    requires g.side > 0
    ensures |t| == |run| && forall k :: 0 <= k < |run| ==> t[k] == Mirror(g, a, w, run[k])
  {
    seq(|run|, k requires 0 <= k < |run| => Mirror(g, a, w, run[k]))
  }

  lemma BlockMirrors(g: Grid, source: seq<real>, run: seq<int>, a: nat, w: nat, h: nat, o: Point, s: real)
    requires g.side > 0 && IsBlock(g, source, run, a, w, h, o, s)
    ensures Mirrors(source, run, Image(g, a, w, run), o.x + s * (w - 1) as real / 2.0)
  {
    hide Mirror, Col, Row, InBlock, AtSpacing, Located, X, Z;
    var t := Image(g, a, w, run);
    forall k | 0 <= k < |run|
      ensures t[k] in run && Mirror(g, a, w, t[k]) == run[k]
      ensures X(source, t[k]) == 2.0 * (o.x + s * (w - 1) as real / 2.0) - X(source, run[k])
      ensures Z(source, t[k]) == Z(source, run[k])
    {
      assert run[k] in run;
      MirrorIs(g, a, w, h, run[k]);
      MirrorPosition(g, source, a, w, o, s, run[k], t[k]);
    }
    forall x ensures x in SetOf(t) <==> x in SetOf(run) {
      if x in run {
        var k :| 0 <= k < |run| && run[k] == x;
        var j :| 0 <= j < |run| && run[j] == t[k];
        assert t[j] == x;
      }
    }
  }

  lemma MirrorPosition(g: Grid, source: seq<real>, a: nat, w: nat, o: Point, s: real, e: int, f: int)
    requires g.side > 0 && AtSpacing(g, source, a, o, s, e) && AtSpacing(g, source, a, o, s, f)
    requires Col(g, a, f) == w - 1 - Col(g, a, e) && Row(g, a, f) == Row(g, a, e)
    ensures X(source, f) == 2.0 * (o.x + s * (w - 1) as real / 2.0) - X(source, e) && Z(source, f) == Z(source, e)
  {
    var x := Col(g, a, e) as real;
    hide Col, Row, X, Z;
    assert Col(g, a, f) as real == (w - 1) as real - x;
    assert s * ((w - 1) as real - x) == s * (w - 1) as real - s * x;
  }

  // ---------------------------------------------------------------- how many cells

  function RowCells(b: int, w: nat): set<int> {
    if w == 0 then {} else RowCells(b, w - 1) + {b + w - 1}
  }

  lemma {:induction false} RowSize(b: int, w: nat)
    ensures |RowCells(b, w)| == w && forall e :: e in RowCells(b, w) <==> b <= e < b + w
  {
    if w > 0 { RowSize(b, w - 1); }
  }

  function BlockCells(g: Grid, a: nat, w: nat, h: nat): set<int> {
    if h == 0 then {} else BlockCells(g, a, w, h - 1) + RowCells(RowStart(g, a, h - 1), w)
  }

  function RowStart(g: Grid, a: nat, y: nat): int {
    a + y * g.side
  }

  lemma {:induction false} BlockMembers(g: Grid, a: nat, w: nat, h: nat)
    requires g.side > 0 && w <= g.side
    ensures forall e :: e in BlockCells(g, a, w, h) <==> InBlock(g, a, w, h, e)
  {
    hide Col, Row, RowCells, InBlock, RowStart;
    if h == 0 {
      forall e ensures !InBlock(g, a, w, h, e) { NotInEmpty(g, a, w, e); }
    } else {
      var b := RowStart(g, a, h - 1);
      assert BlockCells(g, a, w, h) == BlockCells(g, a, w, h - 1) + RowCells(b, w);
      hide BlockCells;
      BlockMembers(g, a, w, h - 1);
      forall e ensures e in BlockCells(g, a, w, h) <==> InBlock(g, a, w, h, e) { NewRow(g, a, w, h - 1, e); }
    }
  }

  /** The cells of row `y`: in the block of one more row, and not in that of `y` rows. */
  lemma NewRow(g: Grid, a: nat, w: nat, y: nat, e: int)
    requires g.side > 0 && w <= g.side
    ensures InBlock(g, a, w, y + 1, e) <==> InBlock(g, a, w, y, e) || e in RowCells(RowStart(g, a, y), w)
    ensures e in RowCells(RowStart(g, a, y), w) ==> !InBlock(g, a, w, y, e)
  {
    hide Col, Row, RowCells, InBlock;
    RowSize(RowStart(g, a, y), w);
    InRow(g, a, w, y, e);
    InOneMore(g, a, w, y, e);
  }

  lemma {:induction false} BlockSize(g: Grid, a: nat, w: nat, h: nat)
    requires g.side > 0 && w <= g.side
    ensures |BlockCells(g, a, w, h)| == w * h
  {
    hide Col, Row, RowCells, InBlock, RowStart;
    if h > 0 {
      var b := RowStart(g, a, h - 1);
      assert BlockCells(g, a, w, h) == BlockCells(g, a, w, h - 1) + RowCells(b, w);
      hide BlockCells;
      BlockSize(g, a, w, h - 1);
      RowSize(b, w);
      RowIsNew(g, a, w, h);
      OneRowMore(w, h);
    }
  }

  lemma RowIsNew(g: Grid, a: nat, w: nat, h: nat)
    requires g.side > 0 && w <= g.side && h > 0
    ensures BlockCells(g, a, w, h - 1) !! RowCells(RowStart(g, a, h - 1), w)
  {
    hide BlockCells, Col, Row, RowCells, InBlock, RowStart;
    BlockMembers(g, a, w, h - 1);
    var row := RowCells(RowStart(g, a, h - 1), w);
    forall e | e in row ensures e !in BlockCells(g, a, w, h - 1) {
      NewRow(g, a, w, h - 1, e);
    }
  }

  lemma OneRowMore(w: nat, h: nat)
    requires h > 0
    ensures w * h == w * (h - 1) + w
  {
  }

  lemma NotInEmpty(g: Grid, a: nat, w: nat, e: int)
    requires g.side > 0
    ensures !InBlock(g, a, w, 0, e)
  {
    hide Col, Row;
    if e >= a { RowNatural(g, a, e); }
  }

  lemma InOneMore(g: Grid, a: nat, w: nat, y: nat, e: int)
    requires g.side > 0
    ensures InBlock(g, a, w, y + 1, e) <==> InBlock(g, a, w, y, e) || (e >= a && Col(g, a, e) < w && Row(g, a, e) == y)
    ensures e >= a && Col(g, a, e) < w && Row(g, a, e) == y ==> !InBlock(g, a, w, y, e)
  {
    hide Col, Row;
  }

  lemma InRow(g: Grid, a: nat, w: nat, y: nat, e: int)
    requires g.side > 0 && w <= g.side
    ensures a + y * g.side <= e < a + y * g.side + w <==> e >= a && Col(g, a, e) < w && Row(g, a, e) == y
  {
    if a + y * g.side <= e < a + y * g.side + w { Place(g, a, y, e - a - y * g.side); }
  }

  // ---------------------------------------------------------------- the test

  lemma {:induction false} TotalScaled(f: int -> real, g: int -> real, s: seq<int>, k: real)
    requires forall e :: e in s ==> f(e) == k * g(e)
    ensures Total(f, s) == k * Total(g, s)
  {
    if |s| > 0 {
      var x := s[|s|-1];
      TotalScaled(f, g, s[..|s|-1], k);
      assert x in s && f(x) == k * g(x);
      Spread(k, Total(g, s[..|s|-1]), g(x));
    }
  }

  lemma Spread(k: real, a: real, b: real)
    ensures k * (a + b) == k * a + k * b
  {
  }

  /** Every right-hand pair of a block is one spacing apart. */
  lemma BlockGaps(g: Grid, source: seq<real>, hypot: (real, real) -> real, run: seq<int>, a: nat, w: nat, h: nat,
                  o: Point, s: real)
    requires g.side > 0 && IsBlock(g, source, run, a, w, h, o, s) && IsHypot(hypot)
    ensures Total(GapAt(g, source, hypot, run), run) == s * Total(PairAt(g, run), run)
  {
    hide IsHypot, Col, Row, X, Z, InBlock, Located, Total, Distinct, AtSpacing;
    forall e | e in run ensures GapAt(g, source, hypot, run)(e) == s * PairAt(g, run)(e) {
      if FollowedIn(g, run, e) { BlockGap(g, source, hypot, a, w, h, o, s, e); }
    }
    TotalScaled(GapAt(g, source, hypot, run), PairAt(g, run), run, s);
  }

  lemma BlockGap(g: Grid, source: seq<real>, hypot: (real, real) -> real, a: nat, w: nat, h: nat, o: Point, s: real,
                 e: int)
    requires g.side > 0 && s > 0.0 && IsHypot(hypot) && (e + 1) % g.side != 0 && a % g.side + w <= g.side
    requires InBlock(g, a, w, h, e) && InBlock(g, a, w, h, e + 1)
    requires AtSpacing(g, source, a, o, s, e) && AtSpacing(g, source, a, o, s, e + 1)
    ensures hypot(X(source, e + 1) - X(source, e), Z(source, e + 1) - Z(source, e)) == s
  {
    hide X, Z, Col, Row, InBlock, IsHypot;
    NextInRow(g, a, w, h, e);
    OneStep(s, Col(g, a, e), Col(g, a, e + 1));
    SameStep(s, Row(g, a, e), Row(g, a, e + 1));
    var dx, dz := X(source, e + 1) - X(source, e), Z(source, e + 1) - Z(source, e);
    assert dx == s && dz == 0.0;
    hide AtSpacing;
    HypotAt(hypot, s, 0.0);
    SameRoot(hypot(s, 0.0), s);
  }

  lemma OneStep(s: real, x: int, y: int)
    requires y == x + 1
    ensures s * y as real == s * x as real + s
  {
    var r := x as real;
    assert y as real == r + 1.0;
    assert s * (r + 1.0) == s * r + s;
  }

  lemma SameStep(s: real, x: int, y: int)
    requires x == y
    ensures s * x as real == s * y as real
  {
  }

  lemma NextInRow(g: Grid, a: nat, w: nat, h: nat, e: int)
    requires g.side > 0 && (e + 1) % g.side != 0 && a % g.side + w <= g.side
    requires InBlock(g, a, w, h, e)
    ensures Col(g, a, e + 1) == Col(g, a, e) + 1 && Row(g, a, e + 1) == Row(g, a, e)
  {
    var x, y := Col(g, a, e), Row(g, a, e);
    RowNatural(g, a, e);
    assert e - a == y * g.side + x;
    if x == g.side - 1 {
      var q := a / g.side;
      assert a == q * g.side;
      assert e + 1 == (q + y + 1) * g.side + 0;
      ModUnique(e + 1, q + y + 1, 0, g.side);
    } else {
      assert e + 1 == a + y * g.side + (x + 1);
      Place(g, a, y, x + 1);
    }
  }

  /** The tightest box of a block in the lattice's own frame is no larger than the block. */
  lemma BlockBox(g: Grid, source: seq<real>, run: seq<int>, a: nat, w: nat, h: nat, o: Point, s: real, c: Point, b: Box)
    requires g.side > 0 && IsBlock(g, source, run, a, w, h, o, s) && Bounds(source, run, c, Point(1.0, 0.0), b)
    ensures 0.0 <= b.alongHigh - b.alongLow <= s * (w - 1) as real
    ensures 0.0 <= b.acrossHigh - b.acrossLow <= s * (h - 1) as real
  {
    assert Located(source, run);
    hide IsBlock, At;
    forall e | e in run
      ensures AlongOf(At(source, e), c, Point(1.0, 0.0)) == X(source, e) - c.x
      ensures AcrossOf(At(source, e), c, Point(1.0, 0.0)) == Z(source, e) - c.z
    {
      InFrame(source, run, c, e);
    }
    hide AlongOf, AcrossOf, X, Z;
    var e1 :| e1 in run && AlongOf(At(source, e1), c, Point(1.0, 0.0)) == b.alongLow;
    var e2 :| e2 in run && AlongOf(At(source, e2), c, Point(1.0, 0.0)) == b.alongHigh;
    var e3 :| e3 in run && AcrossOf(At(source, e3), c, Point(1.0, 0.0)) == b.acrossLow;
    var e4 :| e4 in run && AcrossOf(At(source, e4), c, Point(1.0, 0.0)) == b.acrossHigh;
    BlockExtent(g, source, run, a, w, h, o, s, e1, e2);
    BlockExtent(g, source, run, a, w, h, o, s, e3, e4);
  }

  lemma InFrame(source: seq<real>, run: seq<int>, c: Point, e: int)
    requires Located(source, run) && e in run
    ensures AlongOf(At(source, e), c, Point(1.0, 0.0)) == X(source, e) - c.x
    ensures AcrossOf(At(source, e), c, Point(1.0, 0.0)) == Z(source, e) - c.z
  {
  }

  lemma BlockExtent(g: Grid, source: seq<real>, run: seq<int>, a: nat, w: nat, h: nat, o: Point, s: real, e: int,
                    f: int)
    requires g.side > 0 && IsBlock(g, source, run, a, w, h, o, s) && e in run && f in run
    ensures X(source, f) - X(source, e) <= s * (w - 1) as real && Z(source, f) - Z(source, e) <= s * (h - 1) as real
  {
    hide X, Z, Col, Row, Located;
    assert AtSpacing(g, source, a, o, s, e) && AtSpacing(g, source, a, o, s, f);
    assert InBlock(g, a, w, h, e) && InBlock(g, a, w, h, f);
    RowNatural(g, a, e);
    RowNatural(g, a, f);
    ColNatural(g, a, e);
    ColNatural(g, a, f);
    StepsApart(s, Col(g, a, e), Col(g, a, f), w);
    StepsApart(s, Row(g, a, e), Row(g, a, f), h);
  }

  lemma ColNatural(g: Grid, a: nat, e: int)
    requires g.side > 0
    ensures Col(g, a, e) >= 0
  {
  }

  lemma StepsApart(s: real, i: int, j: int, n: nat)
    requires s > 0.0 && 0 <= i < n && 0 <= j < n
    ensures s * j as real - s * i as real <= s * (n - 1) as real
  {
    var d := (n - 1 - j + i) as real;
    assert s * d >= 0.0;
    assert d == (n - 1) as real - j as real + i as real;
    assert s * d == s * (n - 1) as real - s * j as real + s * i as real;
  }

  /** A block of six or more cells is drawn, with the x axis. */
  lemma BlockIsDrawn(g: Grid, source: seq<real>, hypot: (real, real) -> real, height: real, run: seq<int>,
                     piece: seq<Vertex>, a: nat, w: nat, h: nat, o: Point, s: real)
    requires g.side > 0 && IsHypot(hypot) && IsBlock(g, source, run, a, w, h, o, s) && w * h >= 6
    requires IsPiece(g, source, hypot, height, run, piece)
    ensures |run| == w * h && AxisOf(source, hypot, run) == Point(1.0, 0.0) && piece != []
  {
    BlockCount(g, source, run, a, w, h, o, s);
    BlockAxis(g, source, hypot, run, a, w, h, o, s);
    hide IsHypot, IsBlock, AxisOf, Centre, Located, Bounds, SpacingOf, IsSparse, Quad;
    var b :| Bounds(source, run, Centre(source, run), AxisOf(source, hypot, run), b);
    DrawsNothingExactly(g, source, hypot, height, run, piece, b);
    BlockNotBare(g, source, hypot, run, a, w, h, o, s, Centre(source, run), b);
  }

  lemma BlockCount(g: Grid, source: seq<real>, run: seq<int>, a: nat, w: nat, h: nat, o: Point, s: real)
    requires g.side > 0 && IsBlock(g, source, run, a, w, h, o, s)
    ensures |run| == w * h
  {
    hide InBlock, BlockCells, AtSpacing, Located;
    BlockSize(g, a, w, h);
    BlockMembers(g, a, w, h);
    DistinctSize(run);
    hide Distinct;
    assert SetOf(run) == BlockCells(g, a, w, h);
  }

  lemma BlockAxis(g: Grid, source: seq<real>, hypot: (real, real) -> real, run: seq<int>, a: nat, w: nat, h: nat,
                  o: Point, s: real)
    requires g.side > 0 && IsBlock(g, source, run, a, w, h, o, s) && |run| > 0 && IsHypot(hypot)
    ensures AxisOf(source, hypot, run) == Point(1.0, 0.0)
  {
    BlockMirrors(g, source, run, a, w, h, o, s);
    hide IsHypot, Mirrors, Image, Axis, Centre, MomentsAbout, InBlock, AtSpacing;
    var m := o.x + s * (w - 1) as real / 2.0;
    MirrorCentre(source, run, Image(g, a, w, run), m);
    MirrorMixed(source, run, Image(g, a, w, run), Centre(source, run));
    AlignedAxis(MomentsAbout(source, run, Centre(source, run)), hypot);
  }

  lemma BlockNotBare(g: Grid, source: seq<real>, hypot: (real, real) -> real, run: seq<int>, a: nat, w: nat, h: nat,
                     o: Point, s: real, c: Point, b: Box)
    requires g.side > 0 && IsBlock(g, source, run, a, w, h, o, s) && IsHypot(hypot) && |run| == w * h
    requires Bounds(source, run, c, Point(1.0, 0.0), b)
    ensures !IsBare(g, source, hypot, run, b)
  {
    hide IsHypot, Bounds, Total, PairAt, GapAt, InBlock, AtSpacing, Located, Distinct;
    BlockGaps(g, source, hypot, run, a, w, h, o, s);
    BlockBox(g, source, run, a, w, h, o, s, c, b);
    var p, t := Total(PairAt(g, run), run), Total(GapAt(g, source, hypot, run), run);
    assert w > 0 && h > 0 && s > 0.0;
    hide IsBlock;
    NotBelow(p, t, s, b.alongHigh - b.alongLow, b.acrossHigh - b.acrossLow, w, h, |run|);
  }

  /** The steps between the cells of a block: fewer than it has cells. */
  function Steps(w: nat, h: nat): (k: nat)
    requires w > 0 && h > 0
    ensures k <= w * h
  {
    OneRowMore(w, h);
    OneRowMore(h - 1, w);
    NatTimes(w - 1, h - 1);
    (w - 1) * (h - 1)
  }

  lemma NatTimes(a: nat, b: nat)
    ensures a * b >= 0
  {
  }

  lemma NotBelow(p: real, t: real, s: real, x: real, y: real, w: nat, h: nat, n: nat)
    requires t == s * p && s > 0.0 && w > 0 && h > 0 && n == w * h
    requires 0.0 <= x <= s * (w - 1) as real && 0.0 <= y <= s * (h - 1) as real
    ensures 100.0 * (n as real * (t * t)) >= 55.0 * ((p * p) * (x * y))
  {
    hide Steps;
    BoxAtMost(s, x, y, w, h);
    NotBelowBy(p, t, s, Steps(w, h), n, x * y);
  }

  lemma NotBelowBy(p: real, t: real, s: real, k: nat, n: nat, area: real)
    requires t == s * p && k <= n && area <= (s * s) * k as real
    ensures 100.0 * (n as real * (t * t)) >= 55.0 * ((p * p) * area)
  {
    SquareNonNegative(s);
    SquareNonNegative(p);
    SquareOfProduct(s, p, t);
    ShareAtMost(s * s, p * p, t * t, k, n, area);
  }

  lemma ShareAtMost(ss: real, pp: real, q: real, k: nat, n: nat, area: real)
    requires ss >= 0.0 && pp >= 0.0 && q == ss * pp && k <= n && area <= ss * k as real
    ensures 55.0 * (pp * area) <= 100.0 * (n as real * q)
  {
    TimesAtMost(area, ss * k as real, pp);
    TimesNonNegative(ss, pp);
    assert pp * (ss * k as real) == q * k as real;
    TimesAtMost(k as real, n as real, q);
    TimesNonNegative(q, n as real);
  }

  lemma SquareOfProduct(s: real, p: real, t: real)
    requires t == s * p
    ensures t * t == (s * s) * (p * p)
  {
    assert t * t == s * p * (s * p);
  }

  lemma BoxAtMost(s: real, x: real, y: real, w: nat, h: nat)
    requires s > 0.0 && w > 0 && h > 0
    requires 0.0 <= x <= s * (w - 1) as real && 0.0 <= y <= s * (h - 1) as real
    ensures x * y <= (s * s) * Steps(w, h) as real
  {
    var m, n := (w - 1) as real, (h - 1) as real;
    ProductAtMost(x, s * m, y, s * n);
    assert m * n == Steps(w, h) as real;
    assert (s * m) * (s * n) == (s * s) * (m * n);
  }

  lemma TimesNonNegative(a: real, b: real)
    requires a >= 0.0 && b >= 0.0
    ensures a * b >= 0.0
  {
  }

  lemma TimesAtMost(a: real, b: real, f: real)
    requires a <= b && f >= 0.0
    ensures f * a <= f * b
  {
    TimesNonNegative(f, b - a);
    assert f * (b - a) == f * b - f * a;
  }

  lemma ProductAtMost(a: real, b: real, c: real, d: real)
    requires 0.0 <= a <= b && 0.0 <= c <= d
    ensures a * c <= b * d
  {
    TimesAtMost(c, d, a);
    TimesAtMost(a, b, d);
  }
}
