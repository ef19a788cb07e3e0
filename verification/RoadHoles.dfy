/** Closing the holes of the road: whatever the road encloses, up to a size, is road.
    Flood from the border, collect the enclosed components, keep the small ones, and
    settle their positions from the rim inwards. */
module RoadHoles {
  import opened Lattice

  const ROAD: nat := 2
  const MAX_HOLE_SHARE: real := 0.06

  // ---------------------------------------------------------------- what the repair means

  ghost function Free(g: Grid, road: set<int>): set<int> {
    g.Cells() - road
  }

  /** Reachable from some border cell without stepping on road. */
  ghost predicate IsOutside(g: Grid, road: set<int>, i: int)
    requires g.side > 0
  {
    exists e :: e in Free(g, road) && g.Edge(e) && Connected(g, Free(g, road), e, i)
  }

  ghost predicate IsEnclosed(g: Grid, road: set<int>, i: int)
    requires g.side > 0
  {
    i in Free(g, road) && !IsOutside(g, road, i)
  }

  /** A hole of `size` cells is worth closing in a road of `area` cells. */
  predicate Fits(size: nat, area: nat) {
    size as real <= area as real * MAX_HOLE_SHARE
  }

  /** Six cells in a hundred, the bound included. */
  lemma FitsIs(size: nat, area: nat)
    ensures Fits(size, area) <==> 100 * size <= 6 * area
  {
  }

  /** The hole around `i` is at most the given share of the road's own area. */
  ghost predicate IsSmall(g: Grid, road: set<int>, i: int)
    requires g.side > 0
  {
    Fits(|Component(g, Free(g, road), i)|, |road|)
  }

  /** The cells the repair paves. */
  ghost predicate InHole(g: Grid, road: set<int>, i: int)
    requires g.side > 0
  {
    IsEnclosed(g, road, i) && IsSmall(g, road, i)
  }

  // ---------------------------------------------------------------- facts about enclosure

  lemma OutsideSpreads(g: Grid, road: set<int>, i: int, j: int)
    requires g.side > 0 && IsOutside(g, road, i) && g.Adjacent(i, j) && j in Free(g, road)
    ensures IsOutside(g, road, j)
  {
    var e :| e in Free(g, road) && g.Edge(e) && Connected(g, Free(g, road), e, i);
    ConnectedStep(g, Free(g, road), e, i, j);
  }

  lemma EdgeIsOutside(g: Grid, road: set<int>, i: int)
    requires g.side > 0 && i in Free(g, road) && g.Edge(i)
    ensures IsOutside(g, road, i)
  {
    ConnectedRefl(g, Free(g, road), i);
  }

  /** A neighbour of a paved cell is road or paved with it. */
  lemma HoleNeighbour(g: Grid, road: set<int>, i: int, j: int)
    requires g.side > 0 && InHole(g, road, i) && g.Adjacent(i, j)
    ensures j in road || InHole(g, road, j)
  {
    if j !in road {
      var free := Free(g, road);
      assert g.Has(j) && j in free;
      if IsOutside(g, road, j) {
        AdjacentSymmetric(g, i, j);
        OutsideSpreads(g, road, j, i);
      }
      ConnectedRefl(g, free, i);
      ConnectedStep(g, free, i, i, j);
      SameComponent(g, free, i, j);
    }
  }

  // ---------------------------------------------------------------- the flood from the border

  ghost predicate Reflects(flags: seq<bool>, s: set<int>) {
    forall i :: 0 <= i < |flags| ==> (flags[i] <==> i in s)
  }

  /** The flood so far: `marked` is outside and covers the free border; every cell that is
      neither waiting in `queue` nor the one in hand has all its free neighbours marked. */
  ghost predicate Flooding(g: Grid, road: set<int>, marked: set<int>, queue: seq<int>, at: int)
    requires g.side > 0
  {
    && (forall i :: i in marked ==> i in Free(g, road) && IsOutside(g, road, i))
    && (forall c :: c in Free(g, road) && g.Edge(c) ==> c in marked)
    && (forall c :: c in queue ==> c in marked)
    && (forall i, j :: i in marked && i !in queue && i != at && j in Free(g, road) && g.Adjacent(i, j) ==> j in marked)
  }

  lemma FloodPop(g: Grid, road: set<int>, marked: set<int>, queue: seq<int>, at: int)
    requires g.side > 0 && Flooding(g, road, marked, queue + [at], -1)
    ensures Flooding(g, road, marked, queue, at) && at in marked && g.Has(at)
  {
    hide Grid.Edge, Grid.Around, IsOutside;
    assert (queue + [at])[|queue|] == at;
  }

  lemma FloodMark(g: Grid, road: set<int>, marked: set<int>, queue: seq<int>, at: int, next: int)
    requires g.side > 0 && Flooding(g, road, marked, queue, at)
    requires at in marked && next in Free(g, road) && g.Adjacent(at, next)
    ensures Flooding(g, road, marked + {next}, queue + [next], at)
  {
    hide Grid.Edge, Grid.Around, IsOutside;
    OutsideSpreads(g, road, at, next);
    assert (queue + [next])[|queue|] == next;
  }

  lemma FloodNext(g: Grid, road: set<int>, marked: set<int>, queue: seq<int>, at: int)
    requires g.side > 0 && Flooding(g, road, marked, queue, at)
    requires forall k :: 0 <= k < 4 && g.Around(at)[k] in Free(g, road) ==> g.Around(at)[k] in marked
    ensures Flooding(g, road, marked, queue, -1)
  {
    hide Grid.Edge, Grid.Around, IsOutside;
    forall j | j in Free(g, road) && g.Adjacent(at, j) ensures j in marked {
      var k :| 0 <= k < 4 && g.Around(at)[k] == j;
    }
  }

  /** When nothing waits, the marked cells are the whole outside. */
  lemma FloodComplete(g: Grid, road: set<int>, marked: set<int>)
    requires g.side > 0 && Flooding(g, road, marked, [], -1)
    ensures forall i :: i in marked <==> i in Free(g, road) && IsOutside(g, road, i)
  {
    hide Grid.Edge, Grid.Around;
    var free := Free(g, road);
    assert Closed(g, free, marked);
    forall i | i in free && IsOutside(g, road, i) ensures i in marked {
      var e :| e in free && g.Edge(e) && Connected(g, free, e, i);
      ClosedContains(g, free, marked, e, i);
    }
  }

  /** The flood before it starts: only border cells, all of them waiting. */
  ghost predicate Seeding(g: Grid, road: set<int>, marked: set<int>, queue: seq<int>, upTo: int)
    requires g.side > 0
  {
    && (forall c :: c in marked <==> c in queue)
    && (forall c :: c in marked <==> 0 <= c < upTo && c in Free(g, road) && g.Edge(c))
  }

  lemma SeedMark(g: Grid, road: set<int>, marked: set<int>, queue: seq<int>, i: int)
    requires g.side > 0 && Seeding(g, road, marked, queue, i) && 0 <= i && i in Free(g, road) && g.Edge(i)
    ensures Seeding(g, road, marked + {i}, queue + [i], i + 1)
  {
  }

  lemma SeedDone(g: Grid, road: set<int>, marked: set<int>, queue: seq<int>)
    requires g.side > 0 && Seeding(g, road, marked, queue, g.n)
    ensures Flooding(g, road, marked, queue, -1)
  {
    forall i | i in marked ensures IsOutside(g, road, i) {
      EdgeIsOutside(g, road, i);
    }
  }

  ghost predicate FilledIs(filled: seq<nat>, g: Grid, road: set<int>) {
    |filled| == g.n && road <= g.Cells() && forall i :: 0 <= i < g.n ==> (filled[i] != 0 <==> i in road)
  }

  method SeedBorder(g: Grid, filled: array<nat>, outside: array<bool>, ghost road: set<int>)
    returns (queue: seq<int>, ghost marked: set<int>)
    requires g.side > 0 && FilledIs(filled[..], g, road) && outside.Length == g.n
    requires forall i :: 0 <= i < g.n ==> !outside[i]
    modifies outside
    ensures Reflects(outside[..], marked)
    ensures Flooding(g, road, marked, queue, -1)
  {
    hide Flooding;
    var n := g.n;
    queue := [];
    marked := {};
    for i := 0 to n
      invariant Reflects(outside[..], marked) && Seeding(g, road, marked, queue, i)
    {
      var col := i % g.side;
      var row := (i - col) / g.side;
      var edge := row == 0 || col == 0 || col == g.side - 1 || i + g.side >= n;
      assert filled[..][i] == filled[i];
      if edge && filled[i] == 0 {
        SeedMark(g, road, marked, queue, i);
        outside[i] := true;
        queue := queue + [i];
        marked := marked + {i};
      }
    }
    SeedDone(g, road, marked, queue);
  }

  /** Marks the neighbours of one cell and puts the new ones on the worklist. */
  method VisitOutside(g: Grid, filled: array<nat>, outside: array<bool>, at: int, todo: seq<int>,
                      ghost road: set<int>, ghost marked: set<int>)
    returns (queue: seq<int>, ghost marked': set<int>)
    requires g.side > 0 && FilledIs(filled[..], g, road) && outside.Length == g.n
    requires Reflects(outside[..], marked) && Flooding(g, road, marked, todo, at) && at in marked && g.Has(at)
    modifies outside
    ensures Reflects(outside[..], marked') && Flooding(g, road, marked', queue, -1)
    ensures marked' > marked || (marked' == marked && queue == todo)
  {
    hide Flooding, Grid.Edge;
    queue, marked' := todo, marked;
    var around := g.Around(at);
    for m := 0 to 4
      invariant Reflects(outside[..], marked') && Flooding(g, road, marked', queue, at)
      invariant at in marked'
      invariant marked' > marked || (marked' == marked && queue == todo)
      invariant forall k :: 0 <= k < m && around[k] in Free(g, road) ==> around[k] in marked'
    {
      var next := around[m];
      if next < 0 || next >= g.n {
        continue;
      }
      assert outside[..][next] == outside[next] && filled[..][next] == filled[next];
      if outside[next] || filled[next] != 0 {
        continue;
      }
      FloodMark(g, road, marked', queue, at, next);
      outside[next] := true;
      queue := queue + [next];
      marked' := marked' + {next};
    }
    FloodNext(g, road, marked', queue, at);
  }

  /** The flood fill: marks exactly the free cells that the border reaches. */
  method FloodOutside(g: Grid, filled: array<nat>, ghost road: set<int>) returns (outside: array<bool>)
    requires g.Valid() && FilledIs(filled[..], g, road)
    ensures fresh(outside) && outside.Length == g.n
    ensures g.n > 0 ==> forall i :: 0 <= i < g.n ==>
              (outside[i] <==> i in Free(g, road) && IsOutside(g, road, i))
  {
    hide Flooding, Grid.Edge, Grid.Around;
    outside := new bool[g.n](_ => false);
    if g.n == 0 { return; }
    var queue; ghost var marked;
    queue, marked := SeedBorder(g, filled, outside, road);
    while |queue| > 0
      invariant Reflects(outside[..], marked) && Flooding(g, road, marked, queue, -1)
      decreases g.Cells() - marked, |queue|
    {
      var at := queue[|queue|-1];
      ghost var marked0 := marked;
      assert queue == queue[..|queue|-1] + [at];
      queue := queue[..|queue|-1];
      FloodPop(g, road, marked, queue, at);
      queue, marked := VisitOutside(g, filled, outside, at, queue, road, marked);
      FloodedAreCells(g, road, marked, queue);
    }
    FloodComplete(g, road, marked);
    assert forall i :: 0 <= i < g.n ==> outside[..][i] == outside[i];
  }

  lemma FloodedAreCells(g: Grid, road: set<int>, marked: set<int>, queue: seq<int>)
    requires g.side > 0 && Flooding(g, road, marked, queue, -1)
    ensures marked <= g.Cells()
  {
  }

  // ---------------------------------------------------------------- the holes

  /** Between roots: `grouped` is a union of whole enclosed components, those below `upTo` included. */
  ghost predicate Grouping(g: Grid, road: set<int>, grouped: set<int>, upTo: int)
    requires g.side > 0
  {
    && (forall c :: c in grouped ==> IsEnclosed(g, road, c))
    && Closed(g, Free(g, road), grouped)
    && (forall c :: 0 <= c < upTo && IsEnclosed(g, road, c) ==> c in grouped)
  }

  /** `patch` lists, once each, the grouped cells whose component is small. */
  ghost predicate Patching(g: Grid, road: set<int>, grouped: set<int>, patch: seq<int>)
    requires g.side > 0
  {
    Distinct(patch) && forall c :: c in patch <==> c in grouped && IsSmall(g, road, c)
  }

  /** Inside one hole: its cells so far, each reached from the root, none grouped before;
      the first `head` of them have all their free neighbours in the hole. */
  ghost predicate Gathering(g: Grid, road: set<int>, before: set<int>, hole: seq<int>, head: int)
    requires g.side > 0
  {
    && |hole| > 0 && Distinct(hole)
    && (forall h :: h in hole ==> h !in before && IsEnclosed(g, road, h) && Connected(g, Free(g, road), hole[0], h))
    && (forall k, j :: 0 <= k < head && k < |hole| && j in Free(g, road) && g.Adjacent(hole[k], j) ==> j in hole)
  }

  lemma GatherStart(g: Grid, road: set<int>, before: set<int>, root: int)
    requires g.side > 0 && IsEnclosed(g, road, root) && root !in before
    ensures Gathering(g, road, before, [root], 0)
  {
    ConnectedRefl(g, Free(g, road), root);
  }

  lemma GatherPush(g: Grid, road: set<int>, before: set<int>, hole: seq<int>, head: int, near: int)
    requires g.side > 0 && Gathering(g, road, before, hole, head) && 0 <= head < |hole|
    requires g.Adjacent(hole[head], near) && near !in before && near !in hole && IsEnclosed(g, road, near)
    ensures Gathering(g, road, before, hole + [near], head)
  {
    hide Grid.Around, IsOutside;
    assert hole[head] in hole;
    assert near in Free(g, road);
    assert Connected(g, Free(g, road), hole[0], hole[head]);
    ConnectedStep(g, Free(g, road), hole[0], hole[head], near);
    assert Connected(g, Free(g, road), hole[0], near);
    hide Connected;
    assert (hole + [near])[|hole|] == near;
  }

  /** A free neighbour is never outside, and never in a component grouped earlier. */
  lemma GatherSkip(g: Grid, road: set<int>, before: set<int>, hole: seq<int>, head: int, near: int)
    requires g.side > 0 && Gathering(g, road, before, hole, head) && 0 <= head < |hole|
    requires Closed(g, Free(g, road), before)
    requires g.Adjacent(hole[head], near) && near in Free(g, road)
    ensures !IsOutside(g, road, near) && near !in before
  {
    var h := hole[head];
    assert h in hole;
    AdjacentSymmetric(g, h, near);
    if IsOutside(g, road, near) {
      OutsideSpreads(g, road, near, h);
    }
  }

  lemma GatherNext(g: Grid, road: set<int>, before: set<int>, hole: seq<int>, head: int)
    requires g.side > 0 && Gathering(g, road, before, hole, head) && 0 <= head < |hole|
    requires forall k :: 0 <= k < 4 && g.Around(hole[head])[k] in Free(g, road) ==> g.Around(hole[head])[k] in hole
    ensures Gathering(g, road, before, hole, head + 1)
  {
    hide Grid.Around, IsOutside, Connected;
    forall j | j in Free(g, road) && g.Adjacent(hole[head], j) ensures j in hole {
      var k :| 0 <= k < 4 && g.Around(hole[head])[k] == j;
    }
  }

  lemma GatherClosed(g: Grid, road: set<int>, before: set<int>, hole: seq<int>)
    requires g.side > 0 && Gathering(g, road, before, hole, |hole|)
    ensures Closed(g, Free(g, road), SetOf(hole))
    ensures forall h :: h in SetOf(hole) ==> IsEnclosed(g, road, h) && h !in before
  {
    hide Grid.Around, IsOutside;
    forall i, j | i in SetOf(hole) && j in Free(g, road) && g.Adjacent(i, j) ensures j in SetOf(hole) {
      var k :| 0 <= k < |hole| && hole[k] == i;
    }
  }

  /** The gathered cells are exactly the component of the root. */
  lemma GatherComplete(g: Grid, road: set<int>, before: set<int>, hole: seq<int>)
    requires g.side > 0 && Gathering(g, road, before, hole, |hole|)
    ensures SetOf(hole) == Component(g, Free(g, road), hole[0])
    ensures |hole| == |Component(g, Free(g, road), hole[0])|
    ensures forall h :: h in hole ==> (IsSmall(g, road, h) <==> Fits(|hole|, |road|))
  {
    hide Grid.Around, IsOutside;
    var free := Free(g, road);
    assert hole[0] in hole;
    GatherClosed(g, road, before, hole);
    ClosedIsComponent(g, free, SetOf(hole), hole[0]);
    DistinctSize(hole);
    forall h | h in hole ensures Component(g, free, h) == Component(g, free, hole[0]) {
      SameComponent(g, free, hole[0], h);
    }
  }

  lemma GroupDone(g: Grid, road: set<int>, grouped: set<int>, root: int, hole: seq<int>)
    requires g.side > 0 && Grouping(g, road, grouped, root)
    requires Gathering(g, road, grouped, hole, |hole|) && hole[0] == root
    ensures Grouping(g, road, grouped + SetOf(hole), root + 1)
  {
    GatherClosed(g, road, grouped, hole);
    assert root in SetOf(hole);
    hide Gathering, IsEnclosed, Free, SetOf;
    ClosedUnion(g, Free(g, road), grouped, SetOf(hole));
    hide Closed;
  }

  lemma PatchDone(g: Grid, road: set<int>, grouped: set<int>, patch: seq<int>, hole: seq<int>)
    requires g.side > 0 && Patching(g, road, grouped, patch)
    requires Gathering(g, road, grouped, hole, |hole|)
    ensures Patching(g, road, grouped + SetOf(hole), if Fits(|hole|, |road|) then patch + hole else patch)
  {
    GatherClosed(g, road, grouped, hole);
    GatherComplete(g, road, grouped, hole);
    assert Distinct(hole);
    hide Gathering, IsSmall, IsEnclosed, Fits, Free, Component, Closed, Distinct;
    if Fits(|hole|, |road|) {
      DistinctJoin(patch, hole);
      var longer := patch + hole;
      assert forall c :: c in longer <==> c in patch || c in hole;
    }
  }

  ghost predicate OutsideIs(outside: seq<bool>, g: Grid, road: set<int>)
    requires g.side > 0
  {
    |outside| == g.n && forall i :: 0 <= i < g.n ==> (outside[i] <==> i in Free(g, road) && IsOutside(g, road, i))
  }

  /** Adds the neighbours of `hole[head]` that nothing has claimed yet. */
  method VisitHole(g: Grid, filled: array<nat>, outside: array<bool>, grouped: array<bool>, found: seq<int>, head: int,
                   ghost road: set<int>, ghost before: set<int>)
    returns (hole: seq<int>)
    requires g.side > 0 && FilledIs(filled[..], g, road) && OutsideIs(outside[..], g, road)
    requires grouped != outside && grouped.Length == g.n
    requires 0 <= head < |found| && Gathering(g, road, before, found, head) && Closed(g, Free(g, road), before)
    requires Reflects(grouped[..], before + SetOf(found))
    modifies grouped
    ensures Gathering(g, road, before, hole, head + 1) && Reflects(grouped[..], before + SetOf(hole))
    ensures found <= hole
  {
    hide Closed, Gathering, IsOutside;
    hole := found;
    assert g.Has(hole[head]) by { GatherCells(g, road, before, found, head); }
    var around := g.Around(hole[head]);
    for m := 0 to 4
      invariant found <= hole
      invariant Gathering(g, road, before, hole, head) && Reflects(grouped[..], before + SetOf(hole))
      invariant forall k :: 0 <= k < m && around[k] in Free(g, road) ==> around[k] in hole
    {
      var near := around[m];
      if near < 0 || near >= g.n {
        continue;
      }
      assert grouped[..][near] == grouped[near];
      assert filled[..][near] == filled[near] && outside[..][near] == outside[near];
      assert near !in Free(g, road) || g.Adjacent(hole[head], near);
      if near in Free(g, road) {
        GatherSkip(g, road, before, hole, head, near);
      }
      if grouped[near] || filled[near] != 0 || outside[near] {
        continue;
      }
      GatherPush(g, road, before, hole, head, near);
      grouped[near] := true;
      hole := hole + [near];
    }
    GatherNext(g, road, before, hole, head);
  }

  lemma GatherCells(g: Grid, road: set<int>, before: set<int>, hole: seq<int>, head: int)
    requires g.side > 0 && Gathering(g, road, before, hole, head)
    ensures SetOf(hole) <= g.Cells() && Distinct(hole)
    ensures forall h :: h in hole ==> g.Has(h)
  {
  }

  /** Breadth-first over one hole, the list itself being the queue. */
  method GatherHole(g: Grid, filled: array<nat>, outside: array<bool>, grouped: array<bool>, root: int,
                    ghost road: set<int>, ghost before: set<int>)
    returns (hole: seq<int>)
    requires g.side > 0 && FilledIs(filled[..], g, road) && OutsideIs(outside[..], g, road)
    requires grouped != outside && grouped.Length == g.n
    requires g.Has(root) && IsEnclosed(g, road, root) && root !in before && Closed(g, Free(g, road), before)
    requires Reflects(grouped[..], before)
    modifies grouped
    ensures Gathering(g, road, before, hole, |hole|) && hole[0] == root
    ensures Reflects(grouped[..], before + SetOf(hole))
  {
    hide Closed, Gathering, IsOutside, IsEnclosed;
    GatherStart(g, road, before, root);
    hole := [root];
    grouped[root] := true;
    var head := 0;
    while head < |hole|
      invariant 0 <= head <= |hole| && |hole| > 0 && hole[0] == root
      invariant Gathering(g, road, before, hole, head) && Reflects(grouped[..], before + SetOf(hole))
      decreases g.Cells() - SetOf(hole), |hole| - head
    {
      var found := hole;
      hole := VisitHole(g, filled, outside, grouped, found, head, road, before);
      head := head + 1;
      GatherCells(g, road, before, hole, head);
      GatherGrows(g, found, hole);
    }
  }

  lemma GatherGrows(g: Grid, found: seq<int>, hole: seq<int>)
    requires found <= hole && SetOf(hole) <= g.Cells() && Distinct(hole)
    ensures found == hole || g.Cells() - SetOf(hole) < g.Cells() - SetOf(found)
  {
    if found != hole {
      var x := hole[|found|];
      assert x in SetOf(hole) && x in g.Cells() - SetOf(found) && x !in g.Cells() - SetOf(hole);
    }
  }

  lemma CellsAreBelow(g: Grid, s: set<int>)
    requires s <= g.Cells()
    ensures forall c: int :: c in s ==> 0 <= c < g.n
  {
  }

  method CountRoad(g: Grid, filled: array<nat>, ghost road: set<int>) returns (area: nat)
    requires FilledIs(filled[..], g, road)
    ensures area == |road|
  {
    area := 0;
    ghost var counted: set<int> := {};
    for i := 0 to g.n
      invariant area == |counted|
      invariant forall c: int :: c in counted <==> c in road && c < i
    {
      assert filled[..][i] == filled[i];
      if filled[i] != 0 {
        area := area + 1;
        counted := counted + {i};
      }
    }
    CellsAreBelow(g, road);
    assert forall c :: c in road <==> c in counted;
    assert counted == road;
  }

  /** The cells to pave, each once: the enclosed ones whose component is small. */
  method CollectHoles(g: Grid, filled: array<nat>, outside: array<bool>, ghost road: set<int>)
    returns (patch: seq<int>)
    requires g.side > 0 && FilledIs(filled[..], g, road) && OutsideIs(outside[..], g, road)
    ensures Distinct(patch) && forall c :: c in patch <==> InHole(g, road, c)
  {
    hide Closed, Gathering, Grouping, Patching, IsOutside, IsSmall;
    var area := CountRoad(g, filled, road);
    patch := [];
    var grouped := new bool[g.n](_ => false);
    ghost var claimed: set<int> := {};
    GroupStart(g, road);
    for root := 0 to g.n
      invariant Grouping(g, road, claimed, root) && Patching(g, road, claimed, patch)
      invariant Reflects(grouped[..], claimed)
    {
      assert grouped[..][root] == grouped[root];
      assert filled[..][root] == filled[root] && outside[..][root] == outside[root];
      assert g.Has(root);
      if filled[root] != 0 || outside[root] || grouped[root] {
        GroupSkip(g, road, claimed, root);
        continue;
      }
      GroupClosed(g, road, claimed, root);
      var hole := GatherHole(g, filled, outside, grouped, root, road, claimed);
      GroupDone(g, road, claimed, root, hole);
      PatchDone(g, road, claimed, patch, hole);
      claimed := claimed + SetOf(hole);
      if |hole| as real <= area as real * MAX_HOLE_SHARE {
        patch := patch + hole;
      }
    }
    GroupAll(g, road, claimed, patch);
  }

  lemma GroupStart(g: Grid, road: set<int>)
    requires g.side > 0
    ensures Grouping(g, road, {}, 0) && Patching(g, road, {}, [])
  {
  }

  lemma GroupSkip(g: Grid, road: set<int>, grouped: set<int>, root: int)
    requires g.side > 0 && Grouping(g, road, grouped, root) && (IsEnclosed(g, road, root) ==> root in grouped)
    ensures Grouping(g, road, grouped, root + 1)
  {
    hide IsEnclosed, Closed;
  }

  lemma GroupClosed(g: Grid, road: set<int>, grouped: set<int>, root: int)
    requires g.side > 0 && Grouping(g, road, grouped, root)
    ensures Closed(g, Free(g, road), grouped)
  {
  }

  lemma GroupAll(g: Grid, road: set<int>, grouped: set<int>, patch: seq<int>)
    requires g.side > 0 && Grouping(g, road, grouped, g.n) && Patching(g, road, grouped, patch)
    ensures Distinct(patch) && forall c :: c in patch <==> InHole(g, road, c)
  {
    hide Closed, IsSmall, IsOutside;
    forall c | IsEnclosed(g, road, c) ensures c in grouped {
      assert g.Has(c);
    }
  }
}
