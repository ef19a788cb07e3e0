/** The sampling lattice of the static world: cells numbered row by row, their four
    neighbours, and connectivity through a set of cells. */
module Lattice {

  /** `n` cells in rows of `side`; the last row may be short. */
  datatype Grid = Grid(side: nat, n: nat) {

    predicate Valid() {
      n > 0 ==> side > 0
    }

    predicate Has(i: int) {
      0 <= i < n
    }

    /** The four candidates in the order the loops visit them; -1 stands for "none". */
    function Around(i: int): (a: seq<int>)
      requires side > 0
      ensures |a| == 4
    {
      [i - side,
       i + side,
       if i % side > 0 then i - 1 else -1,
       if i % side < side - 1 then i + 1 else -1]
    }

    predicate Adjacent(i: int, j: int)
      requires side > 0
    {
      Has(i) && Has(j) && j in Around(i)
    }

    /** First row, first column, last column, or nothing below. */
    predicate Edge(i: int)
      requires side > 0
    {
      var col := i % side;
      var row := (i - col) / side;
      row == 0 || col == 0 || col == side - 1 || i + side >= n
    }

    function Cells(): set<int> {
      set i | 0 <= i < n && Has(i)
    }
  }

  // ---------------------------------------------------------------- arithmetic

  lemma StepRight(i: int, side: nat)
    requires side > 0 && 0 <= i && i % side < side - 1
    ensures (i + 1) % side == i % side + 1
  {
    var q, r := i / side, i % side;
    assert i + 1 == q * side + (r + 1);
    ModUnique(i + 1, q, r + 1, side);
  }

  lemma StepLeft(i: int, side: nat)
    requires side > 0 && 0 < i && i % side > 0
    ensures (i - 1) % side == i % side - 1
  {
    var q, r := i / side, i % side;
    assert i - 1 == q * side + (r - 1);
    ModUnique(i - 1, q, r - 1, side);
  }

  lemma ModUnique(a: int, q: int, r: int, d: nat)
    requires d > 0 && 0 <= r < d && a == q * d + r
    ensures a / d == q && a % d == r
  {
    var q', r' := a / d, a % d;
    assert a == q' * d + r';
    var k := q - q';
    assert k * d == r' - r && (-k) * d == r - r';
    if k > 0 {
      MulAtLeast(k, d);
    } else if k < 0 {
      MulAtLeast(-k, d);
    }
  }

  lemma {:induction false} MulAtLeast(k: int, d: int)
    requires k > 0 && d > 0
    ensures k * d >= d
  {
    if k > 1 {
      MulAtLeast(k - 1, d);
      assert k * d == (k - 1) * d + d;
    }
  }

  /** The neighbour relation goes both ways: no column test is missing on either side. */
  lemma AdjacentSymmetric(g: Grid, i: int, j: int)
    requires g.side > 0 && g.Adjacent(i, j)
    ensures g.Adjacent(j, i)
  {
    if j == i - g.side {
      assert g.Around(j)[1] == i;
    } else if j == i + g.side {
      assert g.Around(j)[0] == i;
    } else if i % g.side > 0 && j == i - 1 {
      StepLeft(i, g.side);
      assert g.Around(j)[3] == i;
    } else {
      assert j == i + 1 && i % g.side < g.side - 1;
      StepRight(i, g.side);
      assert g.Around(j)[2] == i;
    }
  }

  lemma TopRowIsEdge(g: Grid, i: int)
    requires g.side > 0 && 0 <= i < g.side
    ensures g.Edge(i)
  {
    ModUnique(i, 0, i, g.side);
  }

  /** Neighbours are next to each other in one row, or one row apart in one column. */
  lemma AdjacentIs(g: Grid, i: int, j: int)
    requires g.side > 0 && g.Has(i) && g.Has(j)
    ensures g.Adjacent(i, j) <==>
              || j == i - g.side
              || j == i + g.side
              || (i / g.side == j / g.side && (j == i - 1 || j == i + 1))
  {
    var a := g.Around(i);
    assert a[0] in a && a[1] in a && a[2] in a && a[3] in a;
    SameRow(i, g.side);
    if i > 0 { SameRow(i - 1, g.side); }
  }

  /** A cell and the next one are in one row unless the first is in the last column. */
  lemma SameRow(i: nat, side: nat)
    requires side > 0
    ensures i / side == (i + 1) / side <==> i % side < side - 1
    ensures i % side < side - 1 <==> (i + 1) % side > 0
  {
    var q, r := i / side, i % side;
    assert i == q * side + r;
    if r < side - 1 {
      ModUnique(i + 1, q, r + 1, side);
    } else {
      assert i + 1 == (q + 1) * side + 0;
      ModUnique(i + 1, q + 1, 0, side);
    }
  }

  /** The border: first or last column, nothing above or nothing below. */
  lemma EdgeIs(g: Grid, i: int)
    requires g.side > 0 && g.Has(i)
    ensures g.Edge(i) <==> i < g.side || i + g.side >= g.n || i % g.side == 0 || (i + 1) % g.side == 0
  {
    SameRow(i, g.side);
    var q, r := i / g.side, i % g.side;
    assert i - r == q * g.side + 0;
    ModUnique(i - r, q, 0, g.side);
    assert i == q * g.side + r;
    if i < g.side { ModUnique(i, 0, i, g.side); }
  }

  // ---------------------------------------------------------------- connectivity

  /** A walk inside `free`, each cell next to the one before it. */
  ghost predicate IsPath(g: Grid, free: set<int>, p: seq<int>)
    requires g.side > 0
  {
    |p| > 0 &&
    (forall k :: 0 <= k < |p| ==> p[k] in free) &&
    (forall k :: 0 < k < |p| ==> g.Adjacent(p[k-1], p[k]))
  }

  ghost predicate PathBetween(g: Grid, free: set<int>, a: int, b: int, p: seq<int>)
    requires g.side > 0
  {
    IsPath(g, free, p) && p[0] == a && p[|p|-1] == b
  }

  ghost predicate Connected(g: Grid, free: set<int>, a: int, b: int)
    requires g.side > 0
  {
    exists p :: PathBetween(g, free, a, b, p)
  }

  /** The 4-connected component of `a` in `free`. */
  ghost function Component(g: Grid, free: set<int>, a: int): set<int>
    requires g.side > 0
  {
    set b | b in free && Connected(g, free, a, b)
  }

  /** `s` is closed under stepping to a neighbour inside `free`. */
  ghost predicate Closed(g: Grid, free: set<int>, s: set<int>)
    requires g.side > 0
  {
    forall i, j :: i in s && j in free && g.Adjacent(i, j) ==> j in s
  }

  lemma ConnectedRefl(g: Grid, free: set<int>, a: int)
    requires g.side > 0 && a in free
    ensures Connected(g, free, a, a)
  {
    assert PathBetween(g, free, a, a, [a]);
  }

  lemma ConnectedStep(g: Grid, free: set<int>, a: int, b: int, c: int)
    requires g.side > 0 && Connected(g, free, a, b) && g.Adjacent(b, c) && c in free
    ensures Connected(g, free, a, c)
  {
    var p :| PathBetween(g, free, a, b, p);
    assert PathBetween(g, free, a, c, p + [c]);
  }

  lemma ConnectedTrans(g: Grid, free: set<int>, a: int, b: int, c: int)
    requires g.side > 0 && Connected(g, free, a, b) && Connected(g, free, b, c)
    ensures Connected(g, free, a, c)
  {
    var p :| PathBetween(g, free, a, b, p);
    var q :| PathBetween(g, free, b, c, q);
    var r := p + q[1..];
    forall k | 0 < k < |r| ensures g.Adjacent(r[k-1], r[k]) {
      if k >= |p| {
        assert r[k] == q[k - |p| + 1];
        assert r[k-1] == q[k - |p|];
      }
    }
    assert r[|r|-1] == c;
    assert PathBetween(g, free, a, c, r);
  }

  ghost function Reversed(p: seq<int>): seq<int> {
    seq(|p|, i requires 0 <= i < |p| => p[|p| - 1 - i])
  }

  lemma ConnectedSymm(g: Grid, free: set<int>, a: int, b: int)
    requires g.side > 0 && Connected(g, free, a, b)
    ensures Connected(g, free, b, a)
  {
    var p :| PathBetween(g, free, a, b, p);
    var r := Reversed(p);
    forall k | 0 < k < |r| ensures g.Adjacent(r[k-1], r[k]) {
      AdjacentSymmetric(g, p[|p| - 1 - k], p[|p| - k]);
    }
    assert PathBetween(g, free, b, a, r);
  }

  lemma ClosedUnion(g: Grid, free: set<int>, s: set<int>, t: set<int>)
    requires g.side > 0 && Closed(g, free, s) && Closed(g, free, t)
    ensures Closed(g, free, s + t)
  {
    hide Grid.Adjacent;
  }

  /** A walk never leaves a closed set it starts in. */
  lemma {:induction false} ClosedTraps(g: Grid, free: set<int>, s: set<int>, p: seq<int>, k: nat)
    requires g.side > 0 && Closed(g, free, s) && IsPath(g, free, p) && p[0] in s && k < |p|
    ensures p[k] in s
  {
    if k > 0 {
      ClosedTraps(g, free, s, p, k - 1);
    }
  }

  lemma ClosedContains(g: Grid, free: set<int>, s: set<int>, a: int, b: int)
    requires g.side > 0 && Closed(g, free, s) && a in s && Connected(g, free, a, b)
    ensures b in s
  {
    var p :| PathBetween(g, free, a, b, p);
    ClosedTraps(g, free, s, p, |p| - 1);
  }

  /** Connected cells have one and the same component. */
  lemma SameComponent(g: Grid, free: set<int>, a: int, b: int)
    requires g.side > 0 && Connected(g, free, a, b)
    ensures Component(g, free, a) == Component(g, free, b)
  {
    ConnectedSymm(g, free, a, b);
    forall c | c in free ensures Connected(g, free, a, c) <==> Connected(g, free, b, c) {
      if Connected(g, free, a, c) { ConnectedTrans(g, free, b, a, c); }
      if Connected(g, free, b, c) { ConnectedTrans(g, free, a, b, c); }
    }
  }

  /** A closed set of cells all connected to `a`, with `a` among them, is the component of `a`. */
  lemma ClosedIsComponent(g: Grid, free: set<int>, s: set<int>, a: int)
    requires g.side > 0 && a in s && s <= free && Closed(g, free, s)
    requires forall b :: b in s ==> Connected(g, free, a, b)
    ensures s == Component(g, free, a)
  {
    forall b | b in free && Connected(g, free, a, b) ensures b in s {
      ClosedContains(g, free, s, a, b);
    }
  }

  // ---------------------------------------------------------------- lists of cells

  ghost predicate Distinct(s: seq<int>) {
    forall i, j :: 0 <= i < j < |s| ==> s[i] != s[j]
  }

  ghost function SetOf(s: seq<int>): set<int> {
    set x | x in s
  }

  lemma {:induction false} DistinctSize(s: seq<int>)
    requires Distinct(s)
    ensures |SetOf(s)| == |s|
  {
    if |s| > 0 {
      var t := s[..|s|-1];
      DistinctSize(t);
      assert SetOf(s) == SetOf(t) + {s[|s|-1]};
      assert s[|s|-1] !in SetOf(t);
    }
  }

  lemma DistinctJoin(s: seq<int>, t: seq<int>)
    requires Distinct(s) && Distinct(t) && forall x :: x in t ==> x !in s
    ensures Distinct(s + t)
  {
    forall i, j | 0 <= i < j < |s + t| ensures (s + t)[i] != (s + t)[j] {
      if j >= |s| { assert t[j - |s|] in t; }
    }
  }
}
