/** Every stripe of paint as one rectangle: the runs, the size and fill tests, and the six
    vertices each surviving run contributes. */
module FitMarkings {
  import opened Lattice
  import opened PaintRuns
  import opened PaintFit

  const MIN_MARKING_CELLS: nat := 6

  datatype Vertex = Vertex(x: real, y: real, z: real)

  // ---------------------------------------------------------------- what is drawn

  /** The cell to the right is a cell of the same run. */
  ghost predicate HasRight(g: Grid, run: seq<int>, cell: int)
    requires g.side > 0
  {
    cell % g.side != g.side - 1 && cell + 1 in run
  }

  datatype Spacing = Spacing(total: real, pairs: nat)

  function Between(source: seq<real>, hypot: (real, real) -> real, a: int, b: int): real
    requires 0 <= 3 * a + 2 < |source| && 0 <= 3 * b + 2 < |source|
  {
    hypot(source[3 * b] - source[3 * a], source[3 * b + 2] - source[3 * a + 2])
  }

  /** Distances to the right-hand neighbours inside `run`, over the cells listed. */
  ghost function SpacingOf(g: Grid, source: seq<real>, hypot: (real, real) -> real, run: seq<int>,
                           cells: seq<int>): Spacing
    requires g.side > 0 && Located(source, cells) && Located(source, run)
  {
    if |cells| == 0 then Spacing(0.0, 0)
    else
      var s, e := SpacingOf(g, source, hypot, run, cells[..|cells|-1]), cells[|cells|-1];
      if HasRight(g, run, e) then Spacing(s.total + Between(source, hypot, e, e + 1), s.pairs + 1) else s
  }

  /** The run leaves too much of its rectangle bare. */
  predicate IsSparse(size: nat, s: Spacing, b: Box) {
    s.pairs > 0 &&
    var cellArea := (s.total / s.pairs as real) * (s.total / s.pairs as real);
    var boxArea := (b.alongHigh - b.alongLow) * (b.acrossHigh - b.acrossLow);
    boxArea > 0.0 && size as real * cellArea / boxArea < MIN_MARKING_FILL
  }

  function VertexAt(p: Point, height: real): Vertex {
    Vertex(p.x, height, p.z)
  }

  /** Two triangles over the four corners. */
  function Quad(c: Point, u: Point, b: Box, height: real): seq<Vertex> {
    var p0 := VertexAt(Corner(c, u, b.alongLow, b.acrossLow), height);
    var p1 := VertexAt(Corner(c, u, b.alongHigh, b.acrossLow), height);
    var p2 := VertexAt(Corner(c, u, b.alongHigh, b.acrossHigh), height);
    var p3 := VertexAt(Corner(c, u, b.alongLow, b.acrossHigh), height);
    [p0, p1, p2, p0, p2, p3]
  }

  ghost function AxisOf(source: seq<real>, hypot: (real, real) -> real, run: seq<int>): Point
    requires Located(source, run) && |run| > 0
  {
    Axis(MomentsAbout(source, run, Centre(source, run)), hypot)
  }

  lemma FlattenMore(pieces: seq<seq<Vertex>>, piece: seq<Vertex>)
    ensures Flatten(pieces + [piece]) == Flatten(pieces) + piece
  {
    assert (pieces + [piece])[..|pieces|] == pieces;
  }

  /** What one run contributes: nothing when it is a speck or too sparse, its rectangle otherwise. */
  ghost predicate IsPiece(g: Grid, source: seq<real>, hypot: (real, real) -> real, height: real, run: seq<int>,
                          piece: seq<Vertex>)
    requires g.side > 0 && Located(source, run)
  {
    if |run| < MIN_MARKING_CELLS then piece == []
    else exists b ::
      Bounds(source, run, Centre(source, run), AxisOf(source, hypot, run), b) &&
      piece == if IsSparse(|run|, SpacingOf(g, source, hypot, run, run), b) then []
               else Quad(Centre(source, run), AxisOf(source, hypot, run), b, height)
  }

  ghost function Flatten(pieces: seq<seq<Vertex>>): seq<Vertex> {
    if |pieces| == 0 then [] else Flatten(pieces[..|pieces|-1]) + pieces[|pieces|-1]
  }

  /** The runs split `seen` into whole components, no cell in two of them. */
  ghost predicate Partition(g: Grid, paint: set<int>, runs: seq<seq<int>>, seen: set<int>)
    requires g.side > 0
  {
    && (forall k :: 0 <= k < |runs| ==> |runs[k]| > 0 && IsRun(g, paint, runs[k], runs[k][0]))
    && (forall k, l :: 0 <= k < l < |runs| ==> SetOf(runs[k]) !! SetOf(runs[l]))
    && (forall c :: c in seen <==> exists k :: 0 <= k < |runs| && c in runs[k])
  }

  // ---------------------------------------------------------------- the neighbour pairs

  /** The test the loop makes (`labels` and `seen` to the right) picks out exactly the pairs
      inside the run. */
  lemma PairInsideRun(g: Grid, paint: set<int>, before: set<int>, run: seq<int>, root: int, cell: int)
    requires g.side > 0 && paint <= g.Cells() && IsRun(g, paint, run, root)
    requires Closed(g, paint, before) && SetOf(run) !! before && before <= paint && cell in run
    ensures cell % g.side != g.side - 1 && cell + 1 in before + SetOf(run) <==> HasRight(g, run, cell)
  {
    var right := cell + 1;
    assert cell in SetOf(run) && cell in paint && g.Has(cell);
    if cell % g.side != g.side - 1 && right in before {
      assert g.Around(cell)[3] == right;
      assert g.Has(right);
      assert g.Adjacent(cell, right);
      AdjacentSymmetric(g, cell, right);
    }
  }

  method FindSpacing(g: Grid, source: seq<real>, labels: seq<nat>, usable: int -> bool, hypot: (real, real) -> real,
                     seen: array<bool>, cells: seq<int>, ghost before: set<int>, ghost root: int)
    returns (s: Spacing)
    requires g.side > 0 && g.n <= |labels| && 3 * g.n <= |source| && seen.Length == g.n
    requires Located(source, cells)
    requires var paint := PaintCells(g, labels, usable);
      IsRun(g, paint, cells, root) && Closed(g, paint, before) && SetOf(cells) !! before && before <= paint
    requires Marks(seen[..], before + SetOf(cells))
    ensures s == SpacingOf(g, source, hypot, cells, cells)
  {
    hide Closed, IsRun, PaintCells, Component, Marks;
    s := Spacing(0.0, 0);
    for k := 0 to |cells|
      invariant s == SpacingOf(g, source, hypot, cells, cells[..k])
    {
      var cell := cells[k];
      var right := cell + 1;
      assert cells[..k + 1][..k] == cells[..k];
      RightTest(g, labels, usable, seen[..], before, cells, root, cell);
      if cell % g.side == g.side - 1 || right >= g.n || labels[right] != MARKING || !seen[right] {
        continue;
      }
      var d := hypot(source[right * 3] - source[cell * 3], source[right * 3 + 2] - source[cell * 3 + 2]);
      s := Spacing(s.total + d, s.pairs + 1);
    }
    assert cells[..|cells|] == cells;
  }

  /** The loop's test, on the arrays. */
  lemma RightTest(g: Grid, labels: seq<nat>, usable: int -> bool, flags: seq<bool>, before: set<int>, run: seq<int>,
                  root: int, cell: int)
    requires g.side > 0 && g.n <= |labels| && |flags| == g.n && cell in run
    requires var paint := PaintCells(g, labels, usable);
      IsRun(g, paint, run, root) && Closed(g, paint, before) && SetOf(run) !! before && before <= paint
    requires Marks(flags, before + SetOf(run))
    ensures 0 <= cell < g.n
    ensures HasRight(g, run, cell) <==>
      cell % g.side != g.side - 1 && cell + 1 < g.n && labels[cell + 1] == MARKING && flags[cell + 1]
  {
    hide Closed, IsRun, PaintCells, Component;
    var paint := PaintCells(g, labels, usable);
    PaintIs(g, labels, usable);
    RunInPaint(g, paint, run, root);
    PairInsideRun(g, paint, before, run, root, cell);
  }

  lemma RunInPaint(g: Grid, paint: set<int>, run: seq<int>, root: int)
    requires g.side > 0 && IsRun(g, paint, run, root)
    ensures SetOf(run) <= paint && forall c :: c in run ==> c in paint
  {
    forall c | c in run ensures c in paint { assert c in SetOf(run); }
  }

  // ---------------------------------------------------------------- the outer loop

  lemma RunRoot(g: Grid, paint: set<int>, run: seq<int>, root: int)
    requires g.side > 0 && IsRun(g, paint, run, root)
    ensures |run| > 0 && IsRun(g, paint, run, run[0])
  {
    hide Grid.Around;
    assert run[0] in SetOf(run);
    assert root in run;
    SameComponent(g, paint, root, run[0]);
  }

  lemma RunLocated(g: Grid, paint: set<int>, run: seq<int>, root: int, source: seq<real>)
    requires g.side > 0 && paint <= g.Cells() && IsRun(g, paint, run, root) && 3 * g.n <= |source|
    ensures Located(source, run)
  {
    RunInPaint(g, paint, run, root);
    forall k | 0 <= k < |run| ensures 0 <= run[k] && 3 * run[k] + 2 < |source| {
      assert run[k] in run && run[k] in g.Cells();
    }
  }

  lemma PartitionMore(g: Grid, paint: set<int>, runs: seq<seq<int>>, seen: set<int>, run: seq<int>)
    requires g.side > 0 && Partition(g, paint, runs, seen)
    requires |run| > 0 && IsRun(g, paint, run, run[0]) && SetOf(run) !! seen
    ensures Partition(g, paint, runs + [run], seen + SetOf(run))
  {
    hide IsRun;
    var more := runs + [run];
    forall k, l | 0 <= k < l < |more| ensures SetOf(more[k]) !! SetOf(more[l]) {
      if l == |runs| {
        forall c | c in more[k] ensures c in seen { assert 0 <= k < |runs| && c in runs[k]; }
      }
    }
    forall c ensures c in seen + SetOf(run) <==> exists k :: 0 <= k < |more| && c in more[k] {
      if c in seen {
        var k :| 0 <= k < |runs| && c in runs[k];
        assert c in more[k];
      }
      if c in run { assert c in more[|runs|]; }
    }
  }

  /** The rectangle of one run, or nothing. */
  method FitRun(g: Grid, source: seq<real>, labels: seq<nat>, usable: int -> bool, hypot: (real, real) -> real,
                height: real, seen: array<bool>, cells: seq<int>, ghost before: set<int>, ghost root: int)
    returns (piece: seq<Vertex>)
    requires g.side > 0 && g.n <= |labels| && 3 * g.n <= |source| && seen.Length == g.n
    requires Located(source, cells) && |cells| > 0
    requires var paint := PaintCells(g, labels, usable);
      IsRun(g, paint, cells, root) && Closed(g, paint, before) && SetOf(cells) !! before && before <= paint
    requires Marks(seen[..], before + SetOf(cells))
    ensures IsPiece(g, source, hypot, height, cells, piece)
  {
    hide Closed, IsRun, PaintCells, Component, Bounds, Axis, IsSparse, Marks;
    piece := [];
    if |cells| < MIN_MARKING_CELLS { return; }
    var c := FindCentre(source, cells);
    var m := FindMoments(source, cells, c);
    var u := Axis(m, hypot);
    var b := FindBox(source, cells, c, u);
    var s := FindSpacing(g, source, labels, usable, hypot, seen, cells, before, root);
    if !IsSparse(|cells|, s, b) {
      piece := Quad(c, u, b, height);
    }
  }

  /** The pieces of the runs so far, in order. */
  ghost predicate Drawn(g: Grid, source: seq<real>, hypot: (real, real) -> real, height: real,
                        runs: seq<seq<int>>, pieces: seq<seq<Vertex>>)
    requires g.side > 0
  {
    |pieces| == |runs| &&
    forall k :: 0 <= k < |runs| ==> Located(source, runs[k]) && IsPiece(g, source, hypot, height, runs[k], pieces[k])
  }

  /** The vertices are the pieces, one after the other, of runs that split the paint into whole
      4-connected components, every usable marking cell in exactly one. */
  ghost predicate IsDrawing(g: Grid, source: seq<real>, paint: set<int>, hypot: (real, real) -> real, height: real,
                            vertices: seq<Vertex>)
    requires g.side > 0
  {
    exists runs, pieces ::
      Partition(g, paint, runs, paint) && Drawn(g, source, hypot, height, runs, pieces) && vertices == Flatten(pieces)
  }

  method FitMarkings(g: Grid, source: seq<real>, labels: seq<nat>, usable: int -> bool, hypot: (real, real) -> real,
                     height: real)
    returns (vertices: seq<Vertex>)
    requires g.Valid() && g.n <= |labels| && 3 * g.n <= |source|
    ensures if g.n == 0 then vertices == []
      else IsDrawing(g, source, PaintCells(g, labels, usable), hypot, height, vertices)
  {
    hide Closed, IsRun, PaintCells, Partition, IsPiece;
    vertices := [];
    ghost var runs: seq<seq<int>>, pieces: seq<seq<Vertex>> := [], [];
    if g.n == 0 { return; }
    ghost var paint := PaintCells(g, labels, usable);
    PaintIs(g, labels, usable);
    var seen := new bool[g.n](_ => false);
    ghost var marked: set<int> := {};
    NothingSeen(g, paint);
    for root := 0 to g.n
      invariant Marks(seen[..], marked) && Closed(g, paint, marked) && marked <= paint
      invariant forall c: int :: c in paint && c < root ==> c in marked
      invariant Partition(g, paint, runs, marked) && Drawn(g, source, hypot, height, runs, pieces)
      invariant vertices == Flatten(pieces)
    {
      assert seen[..][root] == seen[root];
      if seen[root] || labels[root] != MARKING || !usable(root) {
        continue;
      }
      var cells := GatherRun(g, labels, usable, seen, root, marked);
      RunLocated(g, paint, cells, root, source);
      RunRoot(g, paint, cells, root);
      RunHoldsRoot(g, paint, cells, root);
      var piece := FitRun(g, source, labels, usable, hypot, height, seen, cells, marked, root);
      PartitionMore(g, paint, runs, marked, cells);
      ClosedUnion(g, paint, marked, SetOf(cells));
      runs := runs + [cells];
      FlattenMore(pieces, piece);
      pieces := pieces + [piece];
      vertices := vertices + piece;
      marked := marked + SetOf(cells);
    }
    assert marked == paint;
  }

  lemma NothingSeen(g: Grid, paint: set<int>)
    requires g.side > 0
    ensures Closed(g, paint, {}) && Partition(g, paint, [], {})
  {
  }

  lemma RunHoldsRoot(g: Grid, paint: set<int>, run: seq<int>, root: int)
    requires g.side > 0 && IsRun(g, paint, run, root)
    ensures root in SetOf(run)
  {
  }

  // ---------------------------------------------------------------- what a drawn run looks like

  /** A run that is drawn has at least six cells, and its six vertices are two triangles over a
      level rectangle that lies along the axis, holds every cell of the run and has one on every side. */
  lemma DrawnRunIsCovered(g: Grid, source: seq<real>, hypot: (real, real) -> real, height: real, run: seq<int>,
                          piece: seq<Vertex>)
    requires g.side > 0 && Located(source, run) && IsHypot(hypot)
    requires IsPiece(g, source, hypot, height, run, piece) && piece != []
    ensures |run| >= MIN_MARKING_CELLS && |piece| == 6 && piece[3] == piece[0] && piece[4] == piece[2]
    ensures forall v :: v in piece ==> v.y == height
    ensures var p0, p1, p2, p3 := Foot(piece[0]), Foot(piece[1]), Foot(piece[2]), Foot(piece[5]);
      && IsRectangle(p0, p1, p2, p3) && (forall e :: e in run ==> InRectangle(At(source, e), p0, p1, p3))
      && IsTight(source, run, AxisOf(source, hypot, run), p0, p1, p3)
  {
    hide InRectangle, IsRectangle, Centre, MomentsAbout, SpacingOf, Bounds, IsSparse, Quad, Corner, Foot;
    hide Axis, AxisLength, IsEigenvector, IsPrincipal, IsTight;
    var c, u := Centre(source, run), AxisOf(source, hypot, run);
    var b :| Bounds(source, run, c, u, b) &&
      piece == if IsSparse(|run|, SpacingOf(g, source, hypot, run, run), b) then [] else Quad(c, u, b, height);
    AxisIsPrincipal(MomentsAbout(source, run, c), hypot);
    hide IsHypot;
    QuadIs(c, u, b, height);
    CornersAreRectangle(c, u, b);
    RectangleIsTight(source, run, c, u, b);
    forall e | e in run
      ensures InRectangle(At(source, e), Foot(piece[0]), Foot(piece[1]), Foot(piece[5]))
    {
      RectangleHoldsRun(source, run, c, u, b, e);
    }
  }

  lemma QuadIs(c: Point, u: Point, b: Box, height: real)
    ensures var q := Quad(c, u, b, height);
      && |q| == 6 && q[3] == q[0] && q[4] == q[2] && (forall v :: v in q ==> v.y == height)
      && Foot(q[0]) == Corner(c, u, b.alongLow, b.acrossLow) && Foot(q[1]) == Corner(c, u, b.alongHigh, b.acrossLow)
      && Foot(q[2]) == Corner(c, u, b.alongHigh, b.acrossHigh) && Foot(q[5]) == Corner(c, u, b.alongLow, b.acrossHigh)
  {
    hide Corner;
  }

  /** A run of at least six cells painted along z is drawn, with an axis that is not its direction:
      its box has no extent along that axis, so the test for sparse paint cannot reject it. */
  lemma StripeIsDrawnAcross(g: Grid, source: seq<real>, hypot: (real, real) -> real, height: real,
                            run: seq<int>, piece: seq<Vertex>, x: real)
    requires g.side > 0 && Located(source, run) && IsHypot(hypot) && |run| >= MIN_MARKING_CELLS
    requires IsStripeAlongZ(source, run, x) && IsPiece(g, source, hypot, height, run, piece)
    ensures piece != [] && AxisOf(source, hypot, run) == Point(1.0, 0.0)
    ensures !IsPrincipal(MomentsAbout(source, run, Centre(source, run)), AxisOf(source, hypot, run))
  {
    StripeGetsTheXAxis(source, run, x, hypot);
    StripeCentre(source, run, x);
    assert forall e :: e in run ==> At(source, e).x == x;
    hide IsHypot, IsPrincipal, Axis, Centre, MomentsAbout, SpacingOf, IsStripeAlongZ, Corner, Bounds, IsSparse;
    var c, u := Centre(source, run), AxisOf(source, hypot, run);
    var b :| Bounds(source, run, c, u, b) &&
      piece == if IsSparse(|run|, SpacingOf(g, source, hypot, run, run), b) then [] else Quad(c, u, b, height);
    FlatBox(source, run, c, b);
    FlatIsNotSparse(|run|, SpacingOf(g, source, hypot, run, run), b);
  }

  lemma FlatIsNotSparse(size: nat, s: Spacing, b: Box)
    requires b.alongHigh - b.alongLow == 0.0
    ensures !IsSparse(size, s, b)
  {
  }

  lemma FlatBox(source: seq<real>, run: seq<int>, c: Point, b: Box)
    requires Located(source, run) && (forall e :: e in run ==> At(source, e).x == c.x)
    requires Bounds(source, run, c, Point(1.0, 0.0), b)
    ensures b.alongHigh - b.alongLow == 0.0
  {
  }

  function Foot(v: Vertex): Point {
    Point(v.x, v.z)
  }
}
