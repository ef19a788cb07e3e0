/** Runs of paint: the connected groups of usable marking cells. */
module PaintRuns {
  import opened Lattice

  const MARKING: nat := 4

  predicate IsPaint(labels: seq<nat>, usable: int -> bool, i: int)
    requires 0 <= i < |labels|
  {
    labels[i] == MARKING && usable(i)
  }

  /** Paint is label 4, where the cell can be used. */
  lemma PaintIsLabelled(labels: seq<nat>, usable: int -> bool, i: int)
    requires 0 <= i < |labels|
    ensures IsPaint(labels, usable, i) <==> labels[i] == 4 && usable(i)
  {
  }

  ghost function PaintCells(g: Grid, labels: seq<nat>, usable: int -> bool): set<int>
    requires g.n <= |labels|
  {
    set i | 0 <= i < g.n && IsPaint(labels, usable, i)
  }

  ghost predicate Marks(flags: seq<bool>, s: set<int>) {
    forall i :: 0 <= i < |flags| ==> (flags[i] <==> i in s)
  }

  // ---------------------------------------------------------------- one run

  /** Inside one run: `done` are the cells already listed, `queue` those to visit; together they
      are distinct, reached from the root, and closed except around the queue and `at`. */
  ghost predicate Running(g: Grid, paint: set<int>, before: set<int>, root: int, done: seq<int>, queue: seq<int>,
                          at: int)
    requires g.side > 0
  {
    && Distinct(done + queue)
    && root in done + queue
    && (forall h :: h in done + queue ==> h in paint && h !in before && Connected(g, paint, root, h))
    && (forall i, j :: i in done && i != at && j in paint && g.Adjacent(i, j) ==> j in done + queue)
  }

  lemma RunStart(g: Grid, paint: set<int>, before: set<int>, root: int)
    requires g.side > 0 && root in paint && root !in before
    ensures Running(g, paint, before, root, [], [root], -1)
  {
    ConnectedRefl(g, paint, root);
  }

  lemma RunPop(g: Grid, paint: set<int>, before: set<int>, root: int, done: seq<int>, queue: seq<int>, at: int)
    requires g.side > 0 && Running(g, paint, before, root, done, queue + [at], -1) && paint <= g.Cells()
    ensures Running(g, paint, before, root, done + [at], queue, at)
    ensures at in paint && g.Has(at) && SetOf(done + [at] + queue) == SetOf(done + (queue + [at]))
  {
    hide Grid.Around, Connected;
    var s, t := done + (queue + [at]), done + [at] + queue;
    assert s[|s|-1] == at;
    assert forall x :: x in t <==> x in s by {
      assert forall x :: x in t <==> x in done || x in queue || x == at;
      assert forall x :: x in s <==> x in done || x in queue || x == at;
    }
    Rotate(done, queue, at);
    assert forall i :: i in done + [at] <==> i in done || i == at;
    assert -1 !in g.Cells();
    assert forall i :: i in done ==> i in s;
  }

  lemma Rotate(done: seq<int>, queue: seq<int>, at: int)
    requires Distinct(done + (queue + [at]))
    ensures Distinct(done + [at] + queue)
  {
    var s, t := done + (queue + [at]), done + [at] + queue;
    forall i, j | 0 <= i < j < |t| ensures t[i] != t[j] {
      var i' := if i < |done| then i else if i == |done| then |s| - 1 else i - 1;
      var j' := if j < |done| then j else if j == |done| then |s| - 1 else j - 1;
      assert t[i] == s[i'] && t[j] == s[j'];
    }
  }

  lemma RunPush(g: Grid, paint: set<int>, before: set<int>, root: int, done: seq<int>, queue: seq<int>, at: int,
                next: int)
    requires g.side > 0 && Running(g, paint, before, root, done, queue, at) && at in done
    requires g.Adjacent(at, next) && next in paint && next !in before && next !in done + queue
    ensures Running(g, paint, before, root, done, queue + [next], at)
  {
    hide Grid.Around;
    assert at in done + queue;
    ConnectedStep(g, paint, root, at, next);
    hide Connected;
    var s, t := done + queue, done + (queue + [next]);
    assert t == s + [next];
    assert forall x :: x in t <==> x in s || x == next;
  }

  /** A painted neighbour is never in an earlier run: those are closed. */
  lemma RunSkip(g: Grid, paint: set<int>, before: set<int>, root: int, done: seq<int>, queue: seq<int>, at: int,
                next: int)
    requires g.side > 0 && Running(g, paint, before, root, done, queue, at) && at in done
    requires Closed(g, paint, before) && g.Adjacent(at, next) && next in paint
    ensures next !in before
  {
    assert at in done + queue;
    AdjacentSymmetric(g, at, next);
  }

  lemma RunNext(g: Grid, paint: set<int>, before: set<int>, root: int, done: seq<int>, queue: seq<int>, at: int)
    requires g.side > 0 && Running(g, paint, before, root, done, queue, at)
    requires forall k :: 0 <= k < 4 && g.Around(at)[k] in paint ==> g.Around(at)[k] in done + queue
    ensures Running(g, paint, before, root, done, queue, -1)
  {
    hide Grid.Around, Connected;
    forall j | j in paint && g.Adjacent(at, j) ensures j in done + queue {
      var k :| 0 <= k < 4 && g.Around(at)[k] == j;
    }
  }

  /** A finished list is one run: a whole component, each cell once. */
  ghost predicate IsRun(g: Grid, paint: set<int>, cells: seq<int>, root: int)
    requires g.side > 0
  {
    Distinct(cells) && SetOf(cells) == Component(g, paint, root) && root in cells
  }

  lemma RunDone(g: Grid, paint: set<int>, before: set<int>, root: int, done: seq<int>)
    requires g.side > 0 && Running(g, paint, before, root, done, [], -1) && paint <= g.Cells()
    ensures IsRun(g, paint, done, root) && Closed(g, paint, SetOf(done)) && SetOf(done) !! before
      && SetOf(done) <= paint
  {
    hide Grid.Around;
    assert done + [] == done;
    assert -1 !in g.Cells();
    ClosedIsComponent(g, paint, SetOf(done), root);
  }

  /** Marks the painted neighbours of one cell and queues the new ones. */
  method VisitPaint(g: Grid, labels: seq<nat>, usable: int -> bool, seen: array<bool>, at: int, todo: seq<int>,
                    ghost before: set<int>, ghost root: int, ghost done: seq<int>)
    returns (queue: seq<int>)
    requires g.side > 0 && g.n <= |labels| && seen.Length == g.n && g.Has(at)
    requires var paint := PaintCells(g, labels, usable);
      Running(g, paint, before, root, done, todo, at) && at in done && Closed(g, paint, before)
    requires Marks(seen[..], before + SetOf(done + todo))
    modifies seen
    ensures Running(g, PaintCells(g, labels, usable), before, root, done, queue, -1)
    ensures Marks(seen[..], before + SetOf(done + queue))
    ensures todo <= queue
  {
    hide Running, Closed, PaintCells;
    queue := todo;
    ghost var paint := PaintCells(g, labels, usable);
    PaintIs(g, labels, usable);
    var around := g.Around(at);
    for m := 0 to 4
      invariant todo <= queue
      invariant Running(g, paint, before, root, done, queue, at) && Marks(seen[..], before + SetOf(done + queue))
      invariant forall k :: 0 <= k < m && around[k] in paint ==> around[k] in done + queue
    {
      var next := around[m];
      if next < 0 || next >= g.n {
        continue;
      }
      assert seen[..][next] == seen[next];
      assert next !in paint || g.Adjacent(at, next);
      if next in paint { RunSkip(g, paint, before, root, done, queue, at, next); }
      if seen[next] {
        continue;
      }
      if labels[next] != MARKING || !usable(next) {
        continue;
      }
      RunPush(g, paint, before, root, done, queue, at, next);
      seen[next] := true;
      assert done + (queue + [next]) == done + queue + [next];
      queue := queue + [next];
    }
    RunNext(g, paint, before, root, done, queue, at);
  }

  lemma PaintIs(g: Grid, labels: seq<nat>, usable: int -> bool)
    requires g.n <= |labels|
    ensures forall c: int :: c in PaintCells(g, labels, usable) <==> 0 <= c < g.n && IsPaint(labels, usable, c)
    ensures PaintCells(g, labels, usable) <= g.Cells()
  {
    forall c | c in PaintCells(g, labels, usable) ensures c in g.Cells() { assert g.Has(c); }
  }

  /** Depth-first over one run; `cells` lists it in the order the cells were popped. */
  method GatherRun(g: Grid, labels: seq<nat>, usable: int -> bool, seen: array<bool>, root: int, ghost before: set<int>)
    returns (cells: seq<int>)
    requires g.side > 0 && g.n <= |labels| && seen.Length == g.n
    requires var paint := PaintCells(g, labels, usable); root in paint && root !in before && Closed(g, paint, before)
    requires Marks(seen[..], before)
    modifies seen
    ensures IsRun(g, PaintCells(g, labels, usable), cells, root)
    ensures Closed(g, PaintCells(g, labels, usable), SetOf(cells)) && SetOf(cells) !! before
    ensures SetOf(cells) <= PaintCells(g, labels, usable)
    ensures Marks(seen[..], before + SetOf(cells))
  {
    hide Running, Closed, PaintCells, IsRun;
    ghost var paint := PaintCells(g, labels, usable);
    PaintIs(g, labels, usable);
    cells := [];
    var queue := [root];
    RunStart(g, paint, before, root);
    seen[root] := true;
    assert cells + queue == [root];
    while |queue| > 0
      invariant Running(g, paint, before, root, cells, queue, -1) && Marks(seen[..], before + SetOf(cells + queue))
      decreases g.Cells() - SetOf(cells)
    {
      var at := queue[|queue|-1];
      assert queue == queue[..|queue|-1] + [at];
      RunPop(g, paint, before, root, cells, queue[..|queue|-1], at);
      RunGrows(g, paint, before, root, cells, queue, at);
      queue := queue[..|queue|-1];
      cells := cells + [at];
      queue := VisitPaint(g, labels, usable, seen, at, queue, before, root, cells);
    }
    assert cells + [] == cells;
    RunDone(g, paint, before, root, cells);
  }

  lemma RunGrows(g: Grid, paint: set<int>, before: set<int>, root: int, done: seq<int>, queue: seq<int>, at: int)
    requires g.side > 0 && Running(g, paint, before, root, done, queue, -1) && paint <= g.Cells()
    requires |queue| > 0 && at == queue[|queue|-1]
    ensures g.Cells() - SetOf(done + [at]) < g.Cells() - SetOf(done)
  {
    var s := done + queue;
    assert s[|s|-1] == at && at in s && at in g.Cells();
    assert forall i :: 0 <= i < |done| ==> done[i] == s[i];
    assert at !in done;
    assert at in done + [at];
    assert at in g.Cells() - SetOf(done) && at !in g.Cells() - SetOf(done + [at]);
    assert forall x :: x in done ==> x in done + [at];
  }
}
