/** Positions for the paved holes: settled in synchronous passes from the rim inwards,
    each cell taking the average of the neighbours settled before it. */
module RoadRepair {
  import opened Lattice
  import opened RoadHoles

  // ---------------------------------------------------------------- what a pass computes

  /** At most `k` lattice steps from the road. */
  ghost predicate Within(g: Grid, road: set<int>, i: int, k: nat)
    requires g.side > 0
    decreases k
  {
    i in road || (k > 0 && exists j :: g.Adjacent(i, j) && Within(g, road, j, k - 1))
  }

  /** Coordinate of the measured point: axis 0 is x, axis 1 is z. */
  function Measured(source: seq<real>, i: int, axis: nat): real
    requires axis < 2 && 0 <= 3 * i + 2 < |source|
  {
    source[3 * i + 2 * axis]
  }

  function Mean(s: real, n: nat): real
    requires n > 0
  {
    s / n as real
  }

  /** The position of a cell after `k` passes, from the lattice, the road and the
      measurements alone: no worklist and no order enter into it. */
  ghost function Position(g: Grid, road: set<int>, source: seq<real>, i: int, k: nat, axis: nat): real
    requires g.side > 0 && axis < 2
    decreases k, 0
  {
    if i in road then
      if 0 <= 3 * i + 2 < |source| then Measured(source, i, axis) else 0.0
    else if k == 0 then 0.0
    else if Within(g, road, i, k - 1) then Position(g, road, source, i, k - 1, axis)
    else if Count(g, road, i, k - 1, 4) == 0 then 0.0
    else Mean(Sum(g, road, source, i, k - 1, axis, 4), Count(g, road, i, k - 1, 4))
  }

  /** How many of the first `m` neighbours are within `k` steps of the road. */
  ghost function Count(g: Grid, road: set<int>, i: int, k: nat, m: nat): nat
    requires g.side > 0 && m <= 4
  {
    if m == 0 then 0
    else Count(g, road, i, k, m - 1) + if g.Has(g.Around(i)[m-1]) && Within(g, road, g.Around(i)[m-1], k) then 1 else 0
  }

  ghost function Sum(g: Grid, road: set<int>, source: seq<real>, i: int, k: nat, axis: nat, m: nat): real
    requires g.side > 0 && m <= 4 && axis < 2
    decreases k, m + 1
  {
    if m == 0 then 0.0
    else Sum(g, road, source, i, k, axis, m - 1) +
         if g.Has(g.Around(i)[m-1]) && Within(g, road, g.Around(i)[m-1], k)
         then Position(g, road, source, g.Around(i)[m-1], k, axis) else 0.0
  }

  // ---------------------------------------------------------------- facts about the layers

  lemma {:induction false} WithinMore(g: Grid, road: set<int>, i: int, k: nat)
    requires g.side > 0 && Within(g, road, i, k)
    ensures Within(g, road, i, k + 1)
    decreases k
  {
    if i !in road {
      var j :| g.Adjacent(i, j) && Within(g, road, j, k - 1);
      WithinMore(g, road, j, k - 1);
    }
  }

  /** `Within` is lattice distance: a walk of at most `k` steps from a road cell. */
  lemma {:induction false} WithinIsDistance(g: Grid, road: set<int>, i: int, k: nat)
    requires g.side > 0 && road <= g.Cells() && g.Has(i)
    ensures Within(g, road, i, k) <==>
            exists r, p :: r in road && PathBetween(g, g.Cells(), r, i, p) && |p| <= k + 1
  {
    if Within(g, road, i, k) {
      var r, p := WalkFrom(g, road, i, k);
    }
    if r, p :| r in road && PathBetween(g, g.Cells(), r, i, p) && |p| <= k + 1 {
      WalkWithin(g, road, p, |p| - 1);
      WithinUpTo(g, road, i, |p| - 1, k);
    }
  }

  lemma {:induction false} WalkFrom(g: Grid, road: set<int>, i: int, k: nat) returns (r: int, p: seq<int>)
    requires g.side > 0 && road <= g.Cells() && g.Has(i) && Within(g, road, i, k)
    ensures r in road && PathBetween(g, g.Cells(), r, i, p) && |p| <= k + 1
    decreases k
  {
    hide Grid.Around;
    if i in road {
      r, p := i, [i];
    } else {
      var j :| g.Adjacent(i, j) && Within(g, road, j, k - 1);
      AdjacentSymmetric(g, i, j);
      r, p := WalkFrom(g, road, j, k - 1);
      p := p + [i];
    }
  }

  lemma {:induction false} WalkWithin(g: Grid, road: set<int>, p: seq<int>, k: nat)
    requires g.side > 0 && IsPath(g, g.Cells(), p) && p[0] in road && k < |p|
    ensures Within(g, road, p[k], k)
  {
    hide Grid.Around;
    if k > 0 {
      WalkWithin(g, road, p, k - 1);
      AdjacentSymmetric(g, p[k-1], p[k]);
    }
  }

  lemma {:induction false} WithinUpTo(g: Grid, road: set<int>, i: int, k: nat, l: nat)
    requires g.side > 0 && k <= l && Within(g, road, i, k)
    ensures Within(g, road, i, l)
    decreases l - k
  {
    if k < l {
      WithinMore(g, road, i, k);
      WithinUpTo(g, road, i, k + 1, l);
    }
  }

  /** A cell one step from a settled neighbour is reached on the next pass, and only such a cell. */
  lemma {:induction false} CountIsReached(g: Grid, road: set<int>, i: int, k: nat)
    requires g.side > 0 && g.Has(i) && i !in road
    ensures Count(g, road, i, k, 4) > 0 <==> Within(g, road, i, k + 1)
  {
    if Within(g, road, i, k + 1) {
      var j :| g.Adjacent(i, j) && Within(g, road, j, k);
      var m :| 0 <= m < 4 && g.Around(i)[m] == j;
      CountAtLeast(g, road, i, k, 4, m);
    }
    if Count(g, road, i, k, 4) > 0 {
      var m := CountSome(g, road, i, k, 4);
      assert g.Adjacent(i, g.Around(i)[m]);
    }
  }

  lemma {:induction false} CountAtLeast(g: Grid, road: set<int>, i: int, k: nat, m: nat, x: nat)
    requires g.side > 0 && x < m <= 4 && g.Has(g.Around(i)[x]) && Within(g, road, g.Around(i)[x], k)
    ensures Count(g, road, i, k, m) > 0
  {
    hide Within;
    if x < m - 1 { CountAtLeast(g, road, i, k, m - 1, x); }
  }

  lemma {:induction false} CountSome(g: Grid, road: set<int>, i: int, k: nat, m: nat) returns (x: nat)
    requires g.side > 0 && m <= 4 && Count(g, road, i, k, m) > 0
    ensures x < m && g.Has(g.Around(i)[x]) && Within(g, road, g.Around(i)[x], k)
  {
    hide Within;
    if g.Has(g.Around(i)[m-1]) && Within(g, road, g.Around(i)[m-1], k) {
      x := m - 1;
    } else {
      x := CountSome(g, road, i, k, m - 1);
    }
  }

  /** Averaging never leaves the range of the road's own positions. */
  lemma {:induction false} PositionInRange(g: Grid, road: set<int>, source: seq<real>, i: int, k: nat, axis: nat,
                                           lo: real, hi: real)
    requires g.side > 0 && axis < 2 && road <= g.Cells() && |source| >= 3 * g.n
    requires forall r :: r in road ==> 0 <= 3 * r + 2 < |source| && lo <= Measured(source, r, axis) <= hi
    requires g.Has(i) && Within(g, road, i, k)
    ensures lo <= Position(g, road, source, i, k, axis) <= hi
    decreases k, 0
  {
    if i in road {
    } else if Within(g, road, i, k - 1) {
      PositionInRange(g, road, source, i, k - 1, axis, lo, hi);
    } else {
      hide Spans, Grid.Around, Measured;
      CountIsReached(g, road, i, k - 1);
      SumInRange(g, road, source, i, k - 1, axis, lo, hi, 4);
      AverageInRange(Sum(g, road, source, i, k - 1, axis, 4), Count(g, road, i, k - 1, 4), lo, hi);
    }
  }

  lemma AverageInRange(s: real, c: nat, lo: real, hi: real)
    requires c > 0 && Spans(s, c, lo, hi)
    ensures lo <= s / c as real <= hi
  {
    var q := s / c as real;
    assert q * c as real == s;
    if q < lo {
      MulLess(q, lo, c as real);
    } else if q > hi {
      MulLess(hi, q, c as real);
    }
  }

  lemma MulLess(a: real, b: real, c: real)
    requires a < b && c > 0.0
    ensures a * c < b * c
  {
    assert (b - a) * c > 0.0;
  }

  /** `s` could be a sum of `c` numbers between `lo` and `hi`. */
  ghost predicate Spans(s: real, c: nat, lo: real, hi: real) {
    c as real * lo <= s <= c as real * hi
  }

  lemma SpansMore(s: real, c: nat, lo: real, hi: real, x: real)
    requires Spans(s, c, lo, hi) && lo <= x <= hi
    ensures Spans(s + x, c + 1, lo, hi)
  {
    assert (c + 1) as real * lo == c as real * lo + lo;
    assert (c + 1) as real * hi == c as real * hi + hi;
  }

  lemma {:induction false} SumInRange(g: Grid, road: set<int>, source: seq<real>, i: int, k: nat, axis: nat, lo: real,
                                      hi: real, m: nat)
    requires g.side > 0 && axis < 2 && road <= g.Cells() && |source| >= 3 * g.n && m <= 4
    requires forall r :: r in road ==> 0 <= 3 * r + 2 < |source| && lo <= Measured(source, r, axis) <= hi
    ensures Spans(Sum(g, road, source, i, k, axis, m), Count(g, road, i, k, m), lo, hi)
    decreases k, m + 1
  {
    if m > 0 {
      SumInRange(g, road, source, i, k, axis, lo, hi, m - 1);
      hide Spans, Grid.Around, Measured, Within, Position;
      var j := g.Around(i)[m-1];
      if g.Has(j) && Within(g, road, j, k) {
        PositionInRange(g, road, source, j, k, axis, lo, hi);
        SpansMore(Sum(g, road, source, i, k, axis, m - 1), Count(g, road, i, k, m - 1), lo, hi,
          Position(g, road, source, j, k, axis));
      } else {
        assert Sum(g, road, source, i, k, axis, m) == Sum(g, road, source, i, k, axis, m - 1) + 0.0;
      }
    }
  }

  // ---------------------------------------------------------------- one pass over the arrays

  ghost predicate Paved(g: Grid, road: set<int>, holes: set<int>, c: int, k: nat)
    requires g.side > 0
  {
    c in road || (c in holes && Within(g, road, c, k))
  }

  /** A paved cell's neighbours are road or paved, and nothing paved is on the border. */
  ghost predicate Repairable(g: Grid, road: set<int>, holes: set<int>)
    requires g.side > 0
  {
    && road <= g.Cells() && holes <= Free(g, road)
    && (forall i, j :: i in holes && g.Adjacent(i, j) ==> j in road || j in holes)
    && (forall i :: i in holes ==> !g.Edge(i))
  }

  lemma HolesAreRepairable(g: Grid, road: set<int>, holes: set<int>)
    requires g.side > 0 && road <= g.Cells() && forall c :: c in holes <==> InHole(g, road, c)
    ensures Repairable(g, road, holes)
  {
    hide Grid.Edge, Grid.Around, IsOutside, IsSmall;
    forall i, j | i in holes && g.Adjacent(i, j) ensures j in road || j in holes {
      HoleNeighbour(g, road, i, j);
    }
    forall i | i in holes ensures !g.Edge(i) {
      if g.Edge(i) { EdgeIsOutside(g, road, i); }
    }
  }

  /** One cell in the middle of pass `k + 1`: `new` says it settled in this pass, `merged`
      that its mark 2 has been turned back into 1. */
  ghost predicate CellIs(g: Grid, road: set<int>, holes: set<int>, source: seq<real>, k: nat, c: int,
                         settling: bool, merged: bool, f: nat, x: real, z: real)
    requires g.side > 0
  {
    if Paved(g, road, holes, c, k) then
      f == 1 && x == Position(g, road, source, c, k, 0) && z == Position(g, road, source, c, k, 1)
    else if settling && Within(g, road, c, k + 1) then
      f == (if merged then 1 else 2)
      && x == Position(g, road, source, c, k + 1, 0) && z == Position(g, road, source, c, k + 1, 1)
    else
      f == 0 && x == 0.0 && z == 0.0
  }

  ghost predicate Passing(g: Grid, road: set<int>, holes: set<int>, source: seq<real>, k: nat,
                          seen: seq<int>, merged: seq<int>, filled: seq<nat>, xz: seq<real>)
    requires g.side > 0
  {
    |filled| == g.n && |xz| == 2 * g.n &&
    forall c :: 0 <= c < g.n ==>
      CellIs(g, road, holes, source, k, c, c in seen, c in merged, filled[c], xz[2 * c], xz[2 * c + 1])
  }

  /** The waiting cells of the pass after pass `k`, each once. */
  ghost predicate Waiting(g: Grid, road: set<int>, holes: set<int>, pending: seq<int>, k: nat)
    requires g.side > 0
  {
    Distinct(pending) && forall c :: c in pending <==> c in holes && !Within(g, road, c, k)
  }

  /** What the test `filled[near] === 1` sees at a neighbour of a waiting cell. */
  lemma NeighbourSeen(g: Grid, road: set<int>, holes: set<int>, source: seq<real>, k: nat, seen: seq<int>,
                      filled: seq<nat>, xz: seq<real>, i: int, near: int)
    requires g.side > 0 && Repairable(g, road, holes)
    requires Passing(g, road, holes, source, k, seen, [], filled, xz)
    requires i in holes && g.Adjacent(i, near)
    ensures filled[near] == 1 <==> Within(g, road, near, k)
    ensures filled[near] == 1 ==>
      xz[2 * near] == Position(g, road, source, near, k, 0) && xz[2 * near + 1] == Position(g, road, source, near, k, 1)
  {
    hide Grid.Around, Position, Grid.Edge;
    assert near in road || near in holes;
    assert CellIs(g, road, holes, source, k, near, near in seen, near in [], filled[near], xz[2 * near],
      xz[2 * near + 1]);
  }

  method Average(g: Grid, filled: array<nat>, xz: array<real>, i: int,
                 ghost road: set<int>, ghost holes: set<int>, ghost source: seq<real>, ghost k: nat,
                 ghost seen: seq<int>)
    returns (x: real, z: real, count: nat)
    requires g.side > 0 && Repairable(g, road, holes) && i in holes
    requires Passing(g, road, holes, source, k, seen, [], filled[..], xz[..])
    ensures count == Count(g, road, i, k, 4)
    ensures x == Sum(g, road, source, i, k, 0, 4) && z == Sum(g, road, source, i, k, 1, 4)
  {
    hide Within, Position, Passing, Grid.Edge;
    x, z, count := 0.0, 0.0, 0;
    assert i in Free(g, road);
    assert filled.Length == g.n && xz.Length == 2 * g.n by {
      PassingLengths(g, road, holes, source, k, seen, filled[..], xz[..]);
    }
    var around := g.Around(i);
    for m := 0 to 4
      invariant count == Count(g, road, i, k, m)
      invariant x == Sum(g, road, source, i, k, 0, m) && z == Sum(g, road, source, i, k, 1, m)
    {
      var near := around[m];
      if near < 0 || near >= g.n {
        continue;
      }
      assert g.Adjacent(i, near);
      NeighbourSeen(g, road, holes, source, k, seen, filled[..], xz[..], i, near);
      if filled[near] != 1 {
        continue;
      }
      x := x + xz[near * 2];
      z := z + xz[near * 2 + 1];
      count := count + 1;
    }
  }

  lemma PassingLengths(g: Grid, road: set<int>, holes: set<int>, source: seq<real>, k: nat, seen: seq<int>,
                       filled: seq<nat>, xz: seq<real>)
    requires g.side > 0 && Passing(g, road, holes, source, k, seen, [], filled, xz)
    ensures |filled| == g.n && |xz| == 2 * g.n
  {
  }

  /** Looking at one waiting cell: it settles exactly when the next layer holds it. */
  lemma CellSettles(g: Grid, road: set<int>, holes: set<int>, source: seq<real>, k: nat, seen: seq<int>,
                    filled: seq<nat>, xz: seq<real>, i: int, filled': seq<nat>, xz': seq<real>)
    requires g.side > 0 && Passing(g, road, holes, source, k, seen, [], filled, xz)
    requires g.Has(i) && i !in road && i !in seen && !Within(g, road, i, k)
    requires var c := Count(g, road, i, k, 4);
      if c == 0 then filled' == filled && xz' == xz
      else filled' == filled[i := 2] &&
           xz' == xz[2 * i := Sum(g, road, source, i, k, 0, 4) / c as real]
                    [2 * i + 1 := Sum(g, road, source, i, k, 1, 4) / c as real]
    ensures Passing(g, road, holes, source, k, seen + [i], [], filled', xz')
  {
    CountIsReached(g, road, i, k);
    var c0 := Count(g, road, i, k, 4);
    assert c0 > 0 ==> Position(g, road, source, i, k + 1, 0) == Sum(g, road, source, i, k, 0, 4) / c0 as real;
    assert c0 > 0 ==> Position(g, road, source, i, k + 1, 1) == Sum(g, road, source, i, k, 1, 4) / c0 as real;
    assert !Paved(g, road, holes, i, k);
    hide Within, Position, Sum, Count, Grid.Around, Paved;
    forall c | 0 <= c < g.n
      ensures CellIs(g, road, holes, source, k, c, c in seen + [i], c in [], filled'[c], xz'[2 * c], xz'[2 * c + 1])
    {
      assert CellIs(g, road, holes, source, k, c, c in seen, c in [], filled[c], xz[2 * c], xz[2 * c + 1]);
      assert c in seen + [i] <==> c in seen || c == i;
    }
  }

  /** The first loop of a pass: settle what touches the old rim, keep the rest for later. */
  method SettlePass(g: Grid, filled: array<nat>, xz: array<real>, pending: seq<int>,
                    ghost road: set<int>, ghost holes: set<int>, ghost source: seq<real>, ghost k: nat)
    returns (next: seq<int>, settled: nat)
    requires g.side > 0 && Repairable(g, road, holes) && Waiting(g, road, holes, pending, k)
    requires Passing(g, road, holes, source, k, [], [], filled[..], xz[..])
    modifies filled, xz
    ensures Passing(g, road, holes, source, k, pending, [], filled[..], xz[..])
    ensures Waiting(g, road, holes, next, k + 1) && settled + |next| == |pending|
    ensures settled == 0 ==> next == pending
  {
    hide Within, Position, Sum, Count, Passing, Waiting, Repairable, Grid.Around, Grid.Edge;
    next, settled := [], 0;
    ghost var t0: nat := 0;
    WaitingStart(g, road, holes, pending, k);
    for t := 0 to |pending|
      invariant Passing(g, road, holes, source, k, pending[..t], [], filled[..], xz[..])
      invariant Sifted(g, road, holes, pending, k, t, next) && settled + |next| == t
      invariant settled == 0 ==> next == pending[..t]
    {
      var i := pending[t];
      SiftCell(g, road, holes, pending, k, t, next);
      PassingLengths(g, road, holes, source, k, pending[..t], filled[..], xz[..]);
      ghost var f0, xz0 := filled[..], xz[..];
      var x, z, count := Average(g, filled, xz, i, road, holes, source, k, pending[..t]);
      CountIsReached(g, road, i, k);
      assert pending[..t + 1] == pending[..t] + [i];
      if count == 0 {
        next := next + [i];
        CellSettles(g, road, holes, source, k, pending[..t], f0, xz0, i, f0, xz0);
        continue;
      }
      xz[i * 2] := x / count as real;
      xz[i * 2 + 1] := z / count as real;
      filled[i] := 2;
      settled := settled + 1;
      CellSettles(g, road, holes, source, k, pending[..t], f0, xz0, i, filled[..], xz[..]);
    }
    assert pending[..|pending|] == pending;
    SiftDone(g, road, holes, pending, k, next);
  }

  /** `next` keeps, in order and once each, those of the first `t` that the next layer misses. */
  ghost predicate Sifted(g: Grid, road: set<int>, holes: set<int>, pending: seq<int>, k: nat, t: nat, next: seq<int>)
    requires g.side > 0
  {
    t <= |pending| && Waiting(g, road, holes, pending, k) && Distinct(next) &&
    forall c :: c in next <==> c in pending[..t] && !Within(g, road, c, k + 1)
  }

  lemma WaitingStart(g: Grid, road: set<int>, holes: set<int>, pending: seq<int>, k: nat)
    requires g.side > 0 && Waiting(g, road, holes, pending, k)
    ensures Sifted(g, road, holes, pending, k, 0, [])
  {
  }

  lemma SiftCell(g: Grid, road: set<int>, holes: set<int>, pending: seq<int>, k: nat, t: nat, next: seq<int>)
    requires g.side > 0 && Repairable(g, road, holes) && Sifted(g, road, holes, pending, k, t, next) && t < |pending|
    ensures var i := pending[t];
      g.Has(i) && i in holes && i !in road && i !in pending[..t] && !Within(g, road, i, k) &&
      Sifted(g, road, holes, pending, k, t + 1, if Within(g, road, i, k + 1) then next else next + [i])
  {
    var i := pending[t];
    assert i in pending && i in Free(g, road);
    hide Within, Grid.Edge, Grid.Around;
    assert pending[..t + 1] == pending[..t] + [i];
    assert forall c :: c in pending[..t + 1] <==> c in pending[..t] || c == i;
  }

  lemma SiftDone(g: Grid, road: set<int>, holes: set<int>, pending: seq<int>, k: nat, next: seq<int>)
    requires g.side > 0 && Sifted(g, road, holes, pending, k, |pending|, next)
    ensures Waiting(g, road, holes, next, k + 1)
  {
    assert pending[..|pending|] == pending;
    forall c | c in holes && !Within(g, road, c, k + 1) ensures !Within(g, road, c, k) {
      if Within(g, road, c, k) { WithinMore(g, road, c, k); }
    }
    hide Within;
  }

  /** The second loop of a pass: the marks 2 become 1, so the next pass sees one wider rim. */
  method MergePass(g: Grid, filled: array<nat>, xz: array<real>, pending: seq<int>,
                   ghost road: set<int>, ghost holes: set<int>, ghost source: seq<real>, ghost k: nat)
    requires g.side > 0 && Repairable(g, road, holes) && Waiting(g, road, holes, pending, k)
    requires Passing(g, road, holes, source, k, pending, [], filled[..], xz[..])
    modifies filled
    ensures Passing(g, road, holes, source, k + 1, [], [], filled[..], xz[..])
  {
    hide Within, Position, Passing, Grid.Edge, Grid.Around;
    for t := 0 to |pending|
      invariant Passing(g, road, holes, source, k, pending, pending[..t], filled[..], xz[..])
    {
      var i := pending[t];
      assert i in pending && i in Free(g, road);
      ghost var f0 := filled[..];
      MergeCell(g, road, holes, source, k, pending, t, f0, xz[..]);
      if filled[i] == 2 {
        filled[i] := 1;
      }
      assert filled[..] == if f0[i] == 2 then f0[i := 1] else f0;
    }
    assert pending[..|pending|] == pending;
    MergeDone(g, road, holes, source, k, pending, filled[..], xz[..]);
  }

  lemma MergeCell(g: Grid, road: set<int>, holes: set<int>, source: seq<real>, k: nat, pending: seq<int>, t: nat,
                  filled: seq<nat>, xz: seq<real>)
    requires g.side > 0 && t < |pending| && g.Has(pending[t])
    requires Passing(g, road, holes, source, k, pending, pending[..t], filled, xz)
    ensures |filled| == g.n
    ensures Passing(g, road, holes, source, k, pending, pending[..t + 1],
                    if filled[pending[t]] == 2 then filled[pending[t] := 1] else filled, xz)
  {
    var i := pending[t];
    hide Within, Position, Paved, Grid.Around;
    var filled' := if filled[i] == 2 then filled[i := 1] else filled;
    forall c | 0 <= c < g.n
      ensures CellIs(g, road, holes, source, k, c, c in pending, c in pending[..t + 1], filled'[c], xz[2 * c],
        xz[2 * c + 1])
    {
      assert CellIs(g, road, holes, source, k, c, c in pending, c in pending[..t], filled[c], xz[2 * c], xz[2 * c + 1]);
      assert pending[..t + 1] == pending[..t] + [i];
      assert c in pending[..t + 1] <==> c in pending[..t] || c == i;
    }
  }

  lemma MergeDone(g: Grid, road: set<int>, holes: set<int>, source: seq<real>, k: nat, pending: seq<int>,
                  filled: seq<nat>, xz: seq<real>)
    requires g.side > 0 && Waiting(g, road, holes, pending, k)
    requires Passing(g, road, holes, source, k, pending, pending, filled, xz)
    ensures Passing(g, road, holes, source, k + 1, [], [], filled, xz)
  {
    hide Grid.Around;
    forall c | 0 <= c < g.n
      ensures CellIs(g, road, holes, source, k + 1, c, c in [], c in [], filled[c], xz[2 * c], xz[2 * c + 1])
    {
      assert CellIs(g, road, holes, source, k, c, c in pending, c in pending, filled[c], xz[2 * c], xz[2 * c + 1]);
      if Within(g, road, c, k) {
        WithinMore(g, road, c, k);
        assert Position(g, road, source, c, k + 1, 0) == Position(g, road, source, c, k, 0);
        assert Position(g, road, source, c, k + 1, 1) == Position(g, road, source, c, k, 1);
      }
      hide Within, Position;
    }
  }

  // ---------------------------------------------------------------- progress and the whole repair

  /** Some waiting cell always settles: the first of them in lattice order has a cell above it
      that is not waiting, is not outside, and so has a position already. */
  lemma SomeCellSettles(g: Grid, road: set<int>, holes: set<int>, pending: seq<int>, k: nat)
    requires g.side > 0 && Repairable(g, road, holes) && Waiting(g, road, holes, pending, k) && |pending| > 0
    ensures exists c :: c in pending && Within(g, road, c, k + 1)
  {
    hide Grid.Edge;
    var c := First(pending);
    assert c in Free(g, road);
    if c < g.side { TopRowIsEdge(g, c); }
    var up := c - g.side;
    assert g.Around(c)[0] == up;
    assert g.Adjacent(c, up);
    assert up !in pending;
    assert up in road || up in holes;
    if up in road { WithinUpTo(g, road, up, 0, k); }
    assert Within(g, road, up, k);
  }

  lemma {:induction false} First(s: seq<int>) returns (x: int)
    requires |s| > 0
    ensures x in s && forall y :: y in s ==> x <= y
  {
    if |s| == 1 {
      x := s[0];
    } else {
      var y := First(s[1..]);
      x := if s[0] < y then s[0] else y;
      assert forall z :: z in s ==> z == s[0] || z in s[1..];
    }
  }

  /** Arrays as they stand after some pass. */
  datatype Snapshot = Snapshot(filled: seq<nat>, xz: seq<real>)

  /** `history[k]` is the state after pass `k`: a hole cell carries a position there exactly
      when the road is at most `k` steps away. */
  ghost predicate Layered(g: Grid, road: set<int>, holes: set<int>, source: seq<real>, history: seq<Snapshot>)
    requires g.side > 0
  {
    |history| > 0 &&
    forall k :: 0 <= k < |history| ==> Passing(g, road, holes, source, k, [], [], history[k].filled, history[k].xz)
  }

  /** The pass loop. Its early exit is dead: every pass over waiting cells settles one. */
  method Diffuse(g: Grid, filled: array<nat>, xz: array<real>, patch: seq<int>,
                 ghost road: set<int>, ghost holes: set<int>, ghost source: seq<real>)
    returns (ghost history: seq<Snapshot>)
    requires g.side > 0 && Repairable(g, road, holes) && Waiting(g, road, holes, patch, 0)
    requires Passing(g, road, holes, source, 0, [], [], filled[..], xz[..])
    modifies filled, xz
    ensures Layered(g, road, holes, source, history)
    ensures history[|history|-1] == Snapshot(filled[..], xz[..])
    ensures forall c :: c in holes ==> Within(g, road, c, |history| - 1)
  {
    hide Within, Position, Passing, Repairable, Grid.Around, Grid.Edge;
    var pending := patch;
    history := [Snapshot(filled[..], xz[..])];
    while |pending| > 0
      invariant Layered(g, road, holes, source, history)
      invariant history[|history|-1] == Snapshot(filled[..], xz[..])
      invariant Waiting(g, road, holes, pending, |history| - 1)
      decreases |pending|
    {
      ghost var k: nat := |history| - 1;
      var next, settled := SettlePass(g, filled, xz, pending, road, holes, source, k);
      MergePass(g, filled, xz, pending, road, holes, source, k);
      SomeCellSettles(g, road, holes, pending, k);
      history := history + [Snapshot(filled[..], xz[..])];
      assert settled > 0;
      if settled == 0 { break; }
      pending := next;
    }
  }

  // ---------------------------------------------------------------- the whole of solidRoad

  predicate IsRoad(labels: seq<nat>, usable: int -> bool, i: int)
    requires 0 <= i < |labels|
  {
    labels[i] == ROAD && usable(i)
  }

  /** Road is label 2, where the cell can be used. */
  lemma RoadIs(labels: seq<nat>, usable: int -> bool, i: int)
    requires 0 <= i < |labels|
    ensures IsRoad(labels, usable, i) <==> labels[i] == 2 && usable(i)
  {
  }

  ghost function RoadCells(g: Grid, labels: seq<nat>, usable: int -> bool): set<int>
    requires g.n <= |labels|
  {
    set i | 0 <= i < g.n && IsRoad(labels, usable, i)
  }

  ghost function HoleCells(g: Grid, road: set<int>): set<int>
    requires g.side > 0
  {
    set i | i in Free(g, road) && InHole(g, road, i)
  }

  /** The first `i` cells are marked, with their measured positions. */
  ghost predicate Marked(source: seq<real>, labels: seq<nat>, usable: int -> bool, filled: seq<nat>, xz: seq<real>,
                         n: nat, i: nat) {
    && i <= n && |labels| >= n && |source| >= 3 * n && |filled| == n && |xz| == 2 * n
    && forall c :: 0 <= c < n ==> MarkedCell(source, labels, usable, filled, xz, c, i)
  }

  ghost predicate MarkedCell(source: seq<real>, labels: seq<nat>, usable: int -> bool, filled: seq<nat>, xz: seq<real>,
                             c: nat, i: nat)
    requires c < |labels| && 3 * c + 2 < |source| && c < |filled| && 2 * c + 1 < |xz|
  {
    if c < i && IsRoad(labels, usable, c)
    then filled[c] == 1 && xz[2 * c] == Measured(source, c, 0) && xz[2 * c + 1] == Measured(source, c, 1)
    else filled[c] == 0 && xz[2 * c] == 0.0 && xz[2 * c + 1] == 0.0
  }

  lemma NothingMarked(source: seq<real>, labels: seq<nat>, usable: int -> bool, filled: seq<nat>, xz: seq<real>, n: nat)
    requires |labels| >= n && |source| >= 3 * n && |filled| == n && |xz| == 2 * n
    requires (forall c :: 0 <= c < n ==> filled[c] == 0) && (forall c :: 0 <= c < 2 * n ==> xz[c] == 0.0)
    ensures Marked(source, labels, usable, filled, xz, n, 0)
  {
  }

  lemma MarkOne(source: seq<real>, labels: seq<nat>, usable: int -> bool, filled: seq<nat>, xz: seq<real>, n: nat,
                i: nat)
    requires Marked(source, labels, usable, filled, xz, n, i) && i < n
    ensures |filled| == n && |xz| == 2 * n
    ensures if IsRoad(labels, usable, i)
      then Marked(source, labels, usable, filled[i := 1], xz[i * 2 := source[i * 3]][i * 2 + 1 := source[i * 3 + 2]],
        n, i + 1)
      else Marked(source, labels, usable, filled, xz, n, i + 1)
  {
    var f, x, j := filled, xz, i + 1;
    if IsRoad(labels, usable, i) { f, x := filled[i := 1], xz[i * 2 := source[i * 3]][i * 2 + 1 := source[i * 3 + 2]]; }
    forall c: nat | c < n ensures MarkedCell(source, labels, usable, f, x, c, j) {
      assert MarkedCell(source, labels, usable, filled, xz, c, i);
    }
  }

  lemma AllMarked(source: seq<real>, labels: seq<nat>, usable: int -> bool, filled: seq<nat>, xz: seq<real>, n: nat)
    requires Marked(source, labels, usable, filled, xz, n, n)
    ensures |filled| == n && |xz| == 2 * n && |labels| >= n && |source| >= 3 * n
    ensures forall c :: 0 <= c < n ==> filled[c] == if IsRoad(labels, usable, c) then 1 else 0
    ensures forall c :: 0 <= c < n ==>
      if IsRoad(labels, usable, c) then xz[2 * c] == Measured(source, c, 0) && xz[2 * c + 1] == Measured(source, c, 1)
      else xz[2 * c] == 0.0 && xz[2 * c + 1] == 0.0
  {
    forall c: int | 0 <= c < n
      ensures filled[c] == if IsRoad(labels, usable, c) then 1 else 0
      ensures if IsRoad(labels, usable, c)
              then xz[2 * c] == Measured(source, c, 0) && xz[2 * c + 1] == Measured(source, c, 1)
              else xz[2 * c] == 0.0 && xz[2 * c + 1] == 0.0
    {
      assert MarkedCell(source, labels, usable, filled, xz, c, n);
    }
  }

  method MarkRoad(g: Grid, source: seq<real>, labels: seq<nat>, usable: int -> bool)
    returns (filled: array<nat>, xz: array<real>)
    requires g.Valid() && |source| >= 3 * g.n && |labels| >= g.n
    ensures fresh(filled) && fresh(xz) && filled.Length == g.n && xz.Length == 2 * g.n
    ensures forall c :: 0 <= c < g.n ==> filled[c] == if IsRoad(labels, usable, c) then 1 else 0
    ensures forall c :: 0 <= c < g.n ==>
      if IsRoad(labels, usable, c) then xz[2 * c] == Measured(source, c, 0) && xz[2 * c + 1] == Measured(source, c, 1)
      else xz[2 * c] == 0.0 && xz[2 * c + 1] == 0.0
  {
    filled := new nat[g.n](_ => 0);
    xz := new real[2 * g.n](_ => 0.0);
    hide Marked;
    NothingMarked(source, labels, usable, filled[..], xz[..], g.n);
    for i := 0 to g.n
      invariant Marked(source, labels, usable, filled[..], xz[..], g.n, i)
    {
      MarkOne(source, labels, usable, filled[..], xz[..], g.n, i);
      if labels[i] == ROAD && usable(i) {
        filled[i] := 1;
        xz[i * 2] := source[i * 3];
        xz[i * 2 + 1] := source[i * 3 + 2];
      }
    }
    AllMarked(source, labels, usable, filled[..], xz[..], g.n);
    assert forall c :: 0 <= c < g.n ==> filled[..][c] == filled[c];
    assert forall c :: 0 <= c < 2 * g.n ==> xz[..][c] == xz[c];
  }

  /** The road as one slab: filled are exactly the usable road cells and the small enclosed
      holes; the road keeps its measured positions, and every hole cell has the position its
      layer gives it. */
  method SolidRoad(g: Grid, source: seq<real>, labels: seq<nat>, usable: int -> bool)
    returns (filled: array<nat>, xz: array<real>, ghost history: seq<Snapshot>)
    requires g.Valid() && |source| >= 3 * g.n && |labels| >= g.n
    ensures fresh(filled) && fresh(xz) && filled.Length == g.n && xz.Length == 2 * g.n
    ensures g.n > 0 ==>
      var road := RoadCells(g, labels, usable);
      && (forall c :: 0 <= c < g.n ==> filled[c] == if c in road || InHole(g, road, c) then 1 else 0)
      && (forall c :: c in road ==> 0 <= c < g.n && xz[2 * c] == source[3 * c] && xz[2 * c + 1] == source[3 * c + 2])
      && Layered(g, road, HoleCells(g, road), source, history)
      && history[|history|-1] == Snapshot(filled[..], xz[..])
      && (forall c :: InHole(g, road, c) ==> Within(g, road, c, |history| - 1))
      && (forall c :: InHole(g, road, c) ==> exists d :: AtDistance(g, road, c, d) && IsAverage(g, road, xz[..], c, d))
  {
    hide Grid.Around, Grid.Edge, Position, InHole, Repairable, IsOutside;
    filled, xz := MarkRoad(g, source, labels, usable);
    history := [];
    if g.n == 0 { return; }
    ghost var road := RoadCells(g, labels, usable);
    ghost var holes := HoleCells(g, road);
    var outside := FloodOutside(g, filled, road);
    var patch := CollectHoles(g, filled, outside, road);
    assert forall c :: c in holes <==> InHole(g, road, c) by { HolesAreFree(g, road); }
    HolesAreRepairable(g, road, holes);
    RepairStart(g, road, holes, source, patch, filled[..], xz[..]);
    history := Diffuse(g, filled, xz, patch, road, holes, source);
    RepairEnd(g, road, holes, source, history);
    hide Layered, AtDistance, IsAverage, Within, HoleCells, RoadCells;
    forall c | InHole(g, road, c) ensures exists d :: AtDistance(g, road, c, d) && IsAverage(g, road, xz[..], c, d) {
      var d := HoleDistance(g, road, holes, c, |history| - 1);
      HoleCellIsAverage(g, road, holes, source, history, c, d);
    }
  }

  lemma HolesAreFree(g: Grid, road: set<int>)
    requires g.side > 0
    ensures forall c :: InHole(g, road, c) ==> c in Free(g, road)
  {
  }

  lemma RepairStart(g: Grid, road: set<int>, holes: set<int>, source: seq<real>, patch: seq<int>, filled: seq<nat>,
                    xz: seq<real>)
    requires g.side > 0 && |filled| == g.n && |xz| == 2 * g.n && |source| >= 3 * g.n
    requires Repairable(g, road, holes)
    requires Distinct(patch) && forall c :: c in patch <==> c in holes
    requires forall c :: 0 <= c < g.n ==> filled[c] == if c in road then 1 else 0
    requires forall c :: 0 <= c < g.n ==>
      if c in road then xz[2 * c] == Measured(source, c, 0) && xz[2 * c + 1] == Measured(source, c, 1)
      else xz[2 * c] == 0.0 && xz[2 * c + 1] == 0.0
    ensures Waiting(g, road, holes, patch, 0)
    ensures Passing(g, road, holes, source, 0, [], [], filled, xz)
  {
    hide Grid.Around, Grid.Edge;
    forall c | 0 <= c < g.n
      ensures CellIs(g, road, holes, source, 0, c, c in [], c in [], filled[c], xz[2 * c], xz[2 * c + 1])
    {
    }
  }

  lemma RepairEnd(g: Grid, road: set<int>, holes: set<int>, source: seq<real>, history: seq<Snapshot>)
    requires g.side > 0 && |source| >= 3 * g.n && Repairable(g, road, holes)
    requires Layered(g, road, holes, source, history)
    requires forall c :: c in holes ==> Within(g, road, c, |history| - 1)
    ensures var s := history[|history|-1];
      && |s.filled| == g.n && |s.xz| == 2 * g.n
      && (forall c :: 0 <= c < g.n ==> s.filled[c] == if c in road || c in holes then 1 else 0)
      && (forall c :: c in road ==>
            0 <= c < g.n && s.xz[2 * c] == source[3 * c] && s.xz[2 * c + 1] == source[3 * c + 2])
  {
    hide Grid.Around, Grid.Edge;
    var s := history[|history|-1];
    var k := |history| - 1;
    assert Passing(g, road, holes, source, k, [], [], s.filled, s.xz);
    forall c | 0 <= c < g.n
      ensures s.filled[c] == if c in road || c in holes then 1 else 0
      ensures c in road ==> s.xz[2 * c] == source[3 * c] && s.xz[2 * c + 1] == source[3 * c + 2]
    {
      assert CellIs(g, road, holes, source, k, c, c in [], c in [], s.filled[c], s.xz[2 * c], s.xz[2 * c + 1]);
    }
    forall c | c in road ensures 0 <= c < g.n { assert c in g.Cells(); }
  }

  // ---------------------------------------------------------------- the average, on the final positions

  /** The nearest road cell is exactly `d` lattice steps away. */
  ghost predicate AtDistance(g: Grid, road: set<int>, i: int, d: nat)
    requires g.side > 0
  {
    && (exists r, p :: r in road && PathBetween(g, g.Cells(), r, i, p) && |p| <= d + 1)
    && !(exists r, p :: r in road && PathBetween(g, g.Cells(), r, i, p) && |p| <= d)
  }

  ghost function Counted(g: Grid, road: set<int>, j: int, d: nat): nat
    requires g.side > 0
  {
    if g.Has(j) && AtDistance(g, road, j, d) then 1 else 0
  }

  ghost function Term(g: Grid, road: set<int>, xz: seq<real>, j: int, d: nat, axis: nat): real
    requires g.side > 0 && axis < 2 && |xz| == 2 * g.n
  {
    if g.Has(j) && AtDistance(g, road, j, d) then xz[2 * j + axis] else 0.0
  }

  /** The number of counted neighbours, and the sum of what they hold. */
  ghost function CountedAround(g: Grid, road: set<int>, i: int, d: nat): nat
    requires g.side > 0
  {
    Counted(g, road, i - g.side, d) + Counted(g, road, i + g.side, d)
    + Counted(g, road, i - 1, d) + Counted(g, road, i + 1, d)
  }

  ghost function TermsAround(g: Grid, road: set<int>, xz: seq<real>, i: int, d: nat, axis: nat): real
    requires g.side > 0 && axis < 2 && |xz| == 2 * g.n
  {
    Term(g, road, xz, i - g.side, d, axis) + Term(g, road, xz, i + g.side, d, axis)
    + Term(g, road, xz, i - 1, d, axis) + Term(g, road, xz, i + 1, d, axis)
  }

  function Times(n: nat, x: real): real {
    n as real * x
  }

  /** The cell lies, on both axes, at the mean of those of its four neighbours that are one step
      nearer to the road. */
  ghost predicate IsAverage(g: Grid, road: set<int>, xz: seq<real>, i: int, d: nat)
    requires g.side > 0
  {
    && |xz| == 2 * g.n && g.Has(i) && d > 0
    && CountedAround(g, road, i, d - 1) > 0
    && Times(CountedAround(g, road, i, d - 1), xz[2 * i]) == TermsAround(g, road, xz, i, d - 1, 0)
    && Times(CountedAround(g, road, i, d - 1), xz[2 * i + 1]) == TermsAround(g, road, xz, i, d - 1, 1)
  }

  lemma AtDistanceIs(g: Grid, road: set<int>, i: int, d: nat)
    requires g.side > 0 && road <= g.Cells() && g.Has(i)
    ensures AtDistance(g, road, i, d) <==> Within(g, road, i, d) && (d > 0 ==> !Within(g, road, i, d - 1))
  {
    hide Grid.Around, Within;
    WithinIsDistance(g, road, i, d);
    if d > 0 { WithinIsDistance(g, road, i, d - 1); }
  }

  /** Of a cell first reached at `d`, the neighbours within `d - 1` steps are those at distance `d - 1`. */
  lemma NearerNeighbour(g: Grid, road: set<int>, i: int, j: int, d: nat)
    requires g.side > 0 && road <= g.Cells() && g.Adjacent(i, j) && d > 0 && !Within(g, road, i, d - 1)
    ensures Within(g, road, j, d - 1) <==> AtDistance(g, road, j, d - 1)
  {
    hide AtDistance, Within, Grid.Around;
    AtDistanceIs(g, road, j, d - 1);
    if d > 1 { OneStepFarther(g, road, i, j, d - 2); }
  }

  lemma OneStepFarther(g: Grid, road: set<int>, i: int, j: int, k: nat)
    requires g.side > 0 && g.Adjacent(i, j)
    ensures Within(g, road, j, k) ==> Within(g, road, i, k + 1)
  {
  }

  /** Away from the border all four neighbours exist. */
  lemma InnerNeighbours(g: Grid, i: int)
    requires g.side > 0 && g.Has(i) && !g.Edge(i)
    ensures g.Around(i) == [i - g.side, i + g.side, i - 1, i + 1]
    ensures g.Has(i - g.side) && g.Has(i + g.side) && g.Has(i - 1) && g.Has(i + 1)
  {
    if i < g.side { TopRowIsEdge(g, i); }
  }

  /** Position times count is the sum, written out. */
  lemma PositionIsMean(g: Grid, road: set<int>, source: seq<real>, i: int, d: nat, axis: nat)
    requires g.side > 0 && axis < 2 && g.Has(i) && i !in road && d > 0
    requires Within(g, road, i, d) && !Within(g, road, i, d - 1)
    ensures Count(g, road, i, d - 1, 4) > 0
    ensures Times(Count(g, road, i, d - 1, 4), Position(g, road, source, i, d, axis))
      == Sum(g, road, source, i, d - 1, axis, 4)
  {
    CountIsReached(g, road, i, d - 1);
    hide Within, Count, Sum, Grid.Around, Mean, Times;
    MeanTimes(Sum(g, road, source, i, d - 1, axis, 4), Count(g, road, i, d - 1, 4));
  }

  lemma MeanTimes(s: real, n: nat)
    requires n > 0
    ensures Times(n, Mean(s, n)) == s
  {
    var d := n as real;
    assert d != 0.0;
    assert s / d * d == s;
  }

  ghost function Reached(g: Grid, road: set<int>, j: int, k: nat): nat
    requires g.side > 0
  {
    if g.Has(j) && Within(g, road, j, k) then 1 else 0
  }

  ghost function Held(g: Grid, road: set<int>, source: seq<real>, j: int, k: nat, axis: nat): real
    requires g.side > 0 && axis < 2
  {
    if g.Has(j) && Within(g, road, j, k) then Position(g, road, source, j, k, axis) else 0.0
  }

  lemma FourTerms(g: Grid, road: set<int>, source: seq<real>, i: int, k: nat, axis: nat)
    requires g.side > 0 && axis < 2
    ensures var a := g.Around(i);
      && Count(g, road, i, k, 4) == Reached(g, road, a[0], k) + Reached(g, road, a[1], k)
                                    + Reached(g, road, a[2], k) + Reached(g, road, a[3], k)
      && Sum(g, road, source, i, k, axis, 4)
        == Held(g, road, source, a[0], k, axis) + Held(g, road, source, a[1], k, axis)
           + Held(g, road, source, a[2], k, axis) + Held(g, road, source, a[3], k, axis)
  {
    hide Grid.Around, Within, Position;
    assert Sum(g, road, source, i, k, axis, 0) == 0.0 && Count(g, road, i, k, 0) == 0;
    assert Sum(g, road, source, i, k, axis, 1) == Held(g, road, source, g.Around(i)[0], k, axis);
    assert Count(g, road, i, k, 1) == Reached(g, road, g.Around(i)[0], k);
    assert Sum(g, road, source, i, k, axis, 2)
      == Sum(g, road, source, i, k, axis, 1) + Held(g, road, source, g.Around(i)[1], k, axis);
    assert Count(g, road, i, k, 2) == Count(g, road, i, k, 1) + Reached(g, road, g.Around(i)[1], k);
    assert Sum(g, road, source, i, k, axis, 3)
      == Sum(g, road, source, i, k, axis, 2) + Held(g, road, source, g.Around(i)[2], k, axis);
    assert Count(g, road, i, k, 3) == Count(g, road, i, k, 2) + Reached(g, road, g.Around(i)[2], k);
  }

  /** The final arrays hold every paved cell's position at any pass from the one it settled in. */
  lemma FinalPosition(g: Grid, road: set<int>, holes: set<int>, source: seq<real>, k: nat, s: Snapshot, j: int, d: nat)
    requires g.side > 0 && Passing(g, road, holes, source, k, [], [], s.filled, s.xz)
    requires g.Has(j) && (j in road || j in holes) && d <= k && Within(g, road, j, d)
    ensures s.xz[2 * j] == Position(g, road, source, j, d, 0) && s.xz[2 * j + 1] == Position(g, road, source, j, d, 1)
  {
    hide Position;
    assert CellIs(g, road, holes, source, k, j, j in [], j in [], s.filled[j], s.xz[2 * j], s.xz[2 * j + 1]);
    WithinUpTo(g, road, j, d, k);
    PositionStays(g, road, source, j, d, k, 0);
    PositionStays(g, road, source, j, d, k, 1);
  }

  lemma NeighbourCount(g: Grid, road: set<int>, i: int, j: int, d: nat)
    requires g.side > 0 && road <= g.Cells() && g.Adjacent(i, j) && d > 0 && !Within(g, road, i, d - 1)
    ensures Reached(g, road, j, d - 1) == Counted(g, road, j, d - 1)
  {
    hide Grid.Around, Within, AtDistance;
    NearerNeighbour(g, road, i, j, d);
  }

  lemma NeighbourTerm(g: Grid, road: set<int>, holes: set<int>, source: seq<real>, k: nat, s: Snapshot,
                      i: int, j: int, d: nat, axis: nat)
    requires g.side > 0 && Repairable(g, road, holes) && Passing(g, road, holes, source, k, [], [], s.filled, s.xz)
    requires i in holes && g.Adjacent(i, j) && 0 < d <= k && !Within(g, road, i, d - 1) && |s.xz| == 2 * g.n && axis < 2
    ensures Held(g, road, source, j, d - 1, axis) == Term(g, road, s.xz, j, d - 1, axis)
  {
    hide Grid.Around, Grid.Edge, Within, Position, AtDistance, Passing;
    assert road <= g.Cells() && (j in road || j in holes);
    hide Repairable;
    NearerNeighbour(g, road, i, j, d);
    if Within(g, road, j, d - 1) { FinalPosition(g, road, holes, source, k, s, j, d - 1); }
  }

  lemma FourInnerTerms(g: Grid, road: set<int>, source: seq<real>, i: int, k: nat, axis: nat)
    requires g.side > 0 && axis < 2 && g.Has(i) && !g.Edge(i)
    ensures Count(g, road, i, k, 4) == Reached(g, road, i - g.side, k) + Reached(g, road, i + g.side, k)
                                       + Reached(g, road, i - 1, k) + Reached(g, road, i + 1, k)
    ensures Sum(g, road, source, i, k, axis, 4)
         == Held(g, road, source, i - g.side, k, axis) + Held(g, road, source, i + g.side, k, axis)
            + Held(g, road, source, i - 1, k, axis) + Held(g, road, source, i + 1, k, axis)
  {
    InnerNeighbours(g, i);
    FourTerms(g, road, source, i, k, axis);
  }

  lemma CountInFinal(g: Grid, road: set<int>, source: seq<real>, i: int, d: nat)
    requires g.side > 0 && road <= g.Cells() && g.Has(i) && !g.Edge(i) && d > 0 && !Within(g, road, i, d - 1)
    ensures Count(g, road, i, d - 1, 4) == CountedAround(g, road, i, d - 1)
  {
    hide Grid.Edge, Grid.Around, Grid.Adjacent, Within, Count, Sum, Held, Counted, Reached;
    InnerAdjacent(g, i);
    FourInnerTerms(g, road, source, i, d - 1, 0);
    NeighbourCount(g, road, i, i - g.side, d);
    NeighbourCount(g, road, i, i + g.side, d);
    NeighbourCount(g, road, i, i - 1, d);
    NeighbourCount(g, road, i, i + 1, d);
  }

  lemma SumInFinal(g: Grid, road: set<int>, holes: set<int>, source: seq<real>, k: nat, s: Snapshot, i: int, d: nat,
                   axis: nat)
    requires g.side > 0 && Repairable(g, road, holes) && Passing(g, road, holes, source, k, [], [], s.filled, s.xz)
    requires i in holes && g.Has(i) && !g.Edge(i) && 0 < d <= k && !Within(g, road, i, d - 1)
    requires |s.xz| == 2 * g.n && axis < 2
    ensures Sum(g, road, source, i, d - 1, axis, 4) == TermsAround(g, road, s.xz, i, d - 1, axis)
  {
    hide Grid.Edge, Grid.Around, Grid.Adjacent, Repairable, Passing, Within, Position, Count, Sum, Term, Held, Reached;
    InnerAdjacent(g, i);
    FourInnerTerms(g, road, source, i, d - 1, axis);
    NeighbourTerm(g, road, holes, source, k, s, i, i - g.side, d, axis);
    NeighbourTerm(g, road, holes, source, k, s, i, i + g.side, d, axis);
    NeighbourTerm(g, road, holes, source, k, s, i, i - 1, d, axis);
    NeighbourTerm(g, road, holes, source, k, s, i, i + 1, d, axis);
  }

  lemma InnerAdjacent(g: Grid, i: int)
    requires g.side > 0 && g.Has(i) && !g.Edge(i)
    ensures g.Adjacent(i, i - g.side) && g.Adjacent(i, i + g.side) && g.Adjacent(i, i - 1) && g.Adjacent(i, i + 1)
  {
    InnerNeighbours(g, i);
    var a := [i - g.side, i + g.side, i - 1, i + 1];
    assert a[0] in a && a[1] in a && a[2] in a && a[3] in a;
  }

  /** After a complete repair every hole cell is the mean of its neighbours nearer to the road. */
  lemma HoleCellIsAverage(g: Grid, road: set<int>, holes: set<int>, source: seq<real>, history: seq<Snapshot>, i: int,
                          d: nat)
    requires g.side > 0 && Repairable(g, road, holes) && Layered(g, road, holes, source, history)
    requires i in holes && Within(g, road, i, |history| - 1) && AtDistance(g, road, i, d)
    ensures IsAverage(g, road, history[|history|-1].xz, i, d)
  {
    hide Grid.Edge, Grid.Around, Within, Position, AtDistance, Count, Sum, CountedAround, TermsAround, Times;
    hide Repairable, Passing, Layered;
    LastPass(g, road, holes, source, history, i);
    AtDistanceIs(g, road, i, d);
    var k, s := |history| - 1, history[|history|-1];
    NotRoadNotZero(g, road, i, d);
    if d > k { WithinUpTo(g, road, i, k, d - 1); }
    FinalPosition(g, road, holes, source, k, s, i, d);
    CountInFinal(g, road, source, i, d);
    SumInFinal(g, road, holes, source, k, s, i, d, 0);
    SumInFinal(g, road, holes, source, k, s, i, d, 1);
    PositionIsMean(g, road, source, i, d, 0);
    PositionIsMean(g, road, source, i, d, 1);
  }

  lemma LastPass(g: Grid, road: set<int>, holes: set<int>, source: seq<real>, history: seq<Snapshot>, i: int)
    requires g.side > 0 && Repairable(g, road, holes) && Layered(g, road, holes, source, history) && i in holes
    ensures |history| > 0 && road <= g.Cells() && i !in road && g.Has(i) && !g.Edge(i)
    ensures var k, s := |history| - 1, history[|history|-1];
      Passing(g, road, holes, source, k, [], [], s.filled, s.xz) && |s.filled| == g.n && |s.xz| == 2 * g.n
  {
    hide Grid.Edge, Grid.Around, CellIs;
    assert i in Free(g, road);
  }

  lemma {:induction false} HoleDistance(g: Grid, road: set<int>, holes: set<int>, i: int, k: nat) returns (d: nat)
    requires g.side > 0 && Repairable(g, road, holes) && i in holes && Within(g, road, i, k)
    ensures AtDistance(g, road, i, d)
  {
    hide Grid.Around, Grid.Edge, AtDistance, Within;
    assert i in Free(g, road);
    if k > 0 && Within(g, road, i, k - 1) {
      d := HoleDistance(g, road, holes, i, k - 1);
    } else {
      d := k;
      AtDistanceIs(g, road, i, k);
    }
  }

  lemma NotRoadNotZero(g: Grid, road: set<int>, i: int, d: nat)
    requires g.side > 0 && i !in road && Within(g, road, i, d)
    ensures d > 0
  {
  }

  // ---------------------------------------------------------------- what the layers amount to

  /** A hole cell settles on pass `k` exactly when the nearest road cell is `k` steps away. */
  lemma SettlesAtItsDistance(g: Grid, road: set<int>, holes: set<int>, source: seq<real>, history: seq<Snapshot>,
                             c: int, k: nat)
    requires g.side > 0 && Repairable(g, road, holes) && Layered(g, road, holes, source, history)
    requires c in holes && 0 < k < |history|
    ensures g.Has(c) && |history[k].filled| == g.n && |history[k-1].filled| == g.n
    ensures (history[k-1].filled[c] == 0 && history[k].filled[c] == 1) <==>
      && (exists r, p :: r in road && PathBetween(g, g.Cells(), r, c, p) && |p| <= k + 1)
      && !(exists r, p :: r in road && PathBetween(g, g.Cells(), r, c, p) && |p| <= k)
  {
    assert c in Free(g, road) && c !in road;
    hide Grid.Around, Grid.Edge, Position, PathBetween;
    WithinIsDistance(g, road, c, k);
    WithinIsDistance(g, road, c, k - 1);
    var s, t := history[k-1], history[k];
    assert Passing(g, road, holes, source, k - 1, [], [], s.filled, s.xz);
    assert Passing(g, road, holes, source, k, [], [], t.filled, t.xz);
    assert CellIs(g, road, holes, source, k - 1, c, c in [], c in [], s.filled[c], s.xz[2 * c], s.xz[2 * c + 1]);
    assert CellIs(g, road, holes, source, k, c, c in [], c in [], t.filled[c], t.xz[2 * c], t.xz[2 * c + 1]);
    if Within(g, road, c, k - 1) { WithinMore(g, road, c, k - 1); }
  }

  lemma {:induction false} PositionStays(g: Grid, road: set<int>, source: seq<real>, i: int, k: nat, l: nat, axis: nat)
    requires g.side > 0 && axis < 2 && k <= l && Within(g, road, i, k)
    ensures Position(g, road, source, i, l, axis) == Position(g, road, source, i, k, axis)
    decreases l
  {
    if k < l && i !in road {
      WithinUpTo(g, road, i, k, l - 1);
      PositionStays(g, road, source, i, k, l - 1, axis);
    }
  }

  lemma CellIsUnique(g: Grid, road: set<int>, holes: set<int>, source: seq<real>, s1: Snapshot, s2: Snapshot, k1: nat,
                     k2: nat, c: int)
    requires g.side > 0 && g.Has(c) && k1 <= k2 && (c in holes ==> Within(g, road, c, k1))
    requires Passing(g, road, holes, source, k1, [], [], s1.filled, s1.xz)
    requires Passing(g, road, holes, source, k2, [], [], s2.filled, s2.xz)
    ensures s1.filled[c] == s2.filled[c] && s1.xz[2 * c] == s2.xz[2 * c] && s1.xz[2 * c + 1] == s2.xz[2 * c + 1]
  {
    assert CellIs(g, road, holes, source, k1, c, c in [], c in [], s1.filled[c], s1.xz[2 * c], s1.xz[2 * c + 1]);
    assert CellIs(g, road, holes, source, k2, c, c in [], c in [], s2.filled[c], s2.xz[2 * c], s2.xz[2 * c + 1]);
    if c in road || c in holes {
      WithinUpToRoad(g, road, c, k1);
      WithinUpTo(g, road, c, k1, k2);
      PositionStays(g, road, source, c, k1, k2, 0);
      PositionStays(g, road, source, c, k1, k2, 1);
    }
    hide Within, Position;
  }

  lemma SamePairs(a: seq<real>, b: seq<real>, n: nat)
    requires |a| == 2 * n && |b| == 2 * n
    requires forall c :: 0 <= c < n ==> a[2 * c] == b[2 * c] && a[2 * c + 1] == b[2 * c + 1]
    ensures a == b
  {
    forall j | 0 <= j < 2 * n ensures a[j] == b[j] {
      var c := j / 2;
      assert j == 2 * c || j == 2 * c + 1;
    }
  }

  /** Any two complete repairs of one road end in the same arrays, whatever order their
      worklists had and however many passes they took. */
  lemma RepairIsUnique(g: Grid, road: set<int>, holes: set<int>, source: seq<real>, h1: seq<Snapshot>,
                       h2: seq<Snapshot>)
    requires g.side > 0 && Layered(g, road, holes, source, h1) && Layered(g, road, holes, source, h2)
    requires |h1| <= |h2| && forall c :: c in holes ==> Within(g, road, c, |h1| - 1)
    ensures h1[|h1|-1] == h2[|h2|-1]
  {
    var k1: nat, k2: nat := |h1| - 1, |h2| - 1;
    var s1, s2 := h1[k1], h2[k2];
    assert Passing(g, road, holes, source, k1, [], [], s1.filled, s1.xz);
    assert Passing(g, road, holes, source, k2, [], [], s2.filled, s2.xz);
    PassingLengths(g, road, holes, source, k1, [], s1.filled, s1.xz);
    PassingLengths(g, road, holes, source, k2, [], s2.filled, s2.xz);
    hide Layered, Passing, Within, Grid.Cells;
    forall c | 0 <= c < g.n
      ensures s1.filled[c] == s2.filled[c] && s1.xz[2 * c] == s2.xz[2 * c] && s1.xz[2 * c + 1] == s2.xz[2 * c + 1]
    {
      CellIsUnique(g, road, holes, source, s1, s2, k1, k2, c);
    }
    SamePairs(s1.xz, s2.xz, g.n);
    assert |s1.filled| == |s2.filled| && forall c :: 0 <= c < g.n ==> s1.filled[c] == s2.filled[c];
    assert s1.filled == s2.filled;
  }

  /** Every position the repair hands out lies within the road's own extent, on either axis. */
  lemma RepairStaysInRange(g: Grid, labels: seq<nat>, usable: int -> bool, source: seq<real>, history: seq<Snapshot>,
                           c: int, axis: nat, lo: real, hi: real)
    requires g.side > 0 && axis < 2 && |labels| >= g.n && |source| >= 3 * g.n
    requires var road := RoadCells(g, labels, usable);
      && Layered(g, road, HoleCells(g, road), source, history)
      && (forall i :: 0 <= i < g.n && IsRoad(labels, usable, i) ==> lo <= Measured(source, i, axis) <= hi)
      && g.Has(c) && history[|history|-1].filled[c] == 1
    ensures lo <= history[|history|-1].xz[2 * c + axis] <= hi
  {
    hide Grid.Around, Grid.Edge, Measured;
    var road := RoadCells(g, labels, usable);
    var s, k := history[|history|-1], |history| - 1;
    assert Passing(g, road, HoleCells(g, road), source, k, [], [], s.filled, s.xz);
    assert CellIs(g, road, HoleCells(g, road), source, k, c, c in [], c in [], s.filled[c], s.xz[2 * c],
      s.xz[2 * c + 1]);
    WithinUpToRoad(g, road, c, k);
    PositionInRange(g, road, source, c, k, axis, lo, hi);
  }

  lemma WithinUpToRoad(g: Grid, road: set<int>, c: int, k: nat)
    requires g.side > 0
    ensures c in road ==> Within(g, road, c, k)
  {
  }
}
