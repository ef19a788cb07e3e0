/** Sums of a quantity over the cells of a list, in whatever order they stand. */
module Sums {
  import opened Lattice

  ghost function Total(f: int -> real, s: seq<int>): real {
    if |s| == 0 then 0.0 else Total(f, s[..|s|-1]) + f(s[|s|-1])
  }

  lemma TotalMore(f: int -> real, s: seq<int>, x: int)
    ensures Total(f, s + [x]) == Total(f, s) + f(x)
  {
    assert (s + [x])[..|s|] == s;
  }

  lemma {:induction false} TotalAppend(f: int -> real, a: seq<int>, b: seq<int>)
    ensures Total(f, a + b) == Total(f, a) + Total(f, b)
  {
    if |b| == 0 {
      assert a + b == a;
    } else {
      var front, x := b[..|b|-1], b[|b|-1];
      assert Total(f, b) == Total(f, front) + f(x);
      hide Total;
      TotalAppend(f, a, front);
      TotalMore(f, a + front, x);
      assert a + b == (a + front) + [x];
    }
  }

  lemma TotalWithout(f: int -> real, s: seq<int>, k: nat)
    requires k < |s|
    ensures Total(f, s) == Total(f, s[..k] + s[k + 1..]) + f(s[k])
  {
    hide Total;
    TotalMore(f, s[..k], s[k]);
    TotalAppend(f, s[..k] + [s[k]], s[k + 1..]);
    TotalAppend(f, s[..k], s[k + 1..]);
    assert s == (s[..k] + [s[k]]) + s[k + 1..];
  }

  /** The order of a list does not matter. */
  lemma {:induction false} TotalPermuted(f: int -> real, a: seq<int>, b: seq<int>)
    requires Distinct(a) && Distinct(b) && SetOf(a) == SetOf(b)
    ensures Total(f, a) == Total(f, b)
  {
    DistinctSize(a);
    DistinctSize(b);
    if |a| > 0 {
      var x := a[|a|-1];
      assert x in SetOf(a) && x in SetOf(b);
      var k :| 0 <= k < |b| && b[k] == x;
      var front, rest := a[..|a|-1], b[..k] + b[k + 1..];
      assert Total(f, a) == Total(f, front) + f(x);
      hide Total;
      TotalWithout(f, b, k);
      WithoutOne(b, k);
      WithoutOne(a, |a| - 1);
      assert a[..|a|-1] + a[|a|..] == front;
      TotalPermuted(f, front, rest);
    }
  }

  lemma WithoutOne(s: seq<int>, k: nat)
    requires Distinct(s) && k < |s|
    ensures Distinct(s[..k] + s[k + 1..]) && SetOf(s[..k] + s[k + 1..]) == SetOf(s) - {s[k]}
  {
    var r := s[..k] + s[k + 1..];
    assert forall j :: 0 <= j < |r| ==> r[j] == s[if j < k then j else j + 1];
    forall x ensures x in SetOf(r) <==> x in SetOf(s) - {s[k]} {
      if x in s && x != s[k] {
        var j :| 0 <= j < |s| && s[j] == x;
        assert r[if j < k then j else j - 1] == x;
      }
    }
  }

  lemma {:induction false} TotalSame(f: int -> real, g: int -> real, s: seq<int>)
    requires forall e :: e in s ==> f(e) == g(e)
    ensures Total(f, s) == Total(g, s)
  {
    if |s| > 0 {
      var x := s[|s|-1];
      TotalSame(f, g, s[..|s|-1]);
      assert x in s && f(x) == g(x);
    }
  }

  lemma {:induction false} TotalOpposite(f: int -> real, g: int -> real, s: seq<int>, k: real)
    requires forall e :: e in s ==> f(e) + g(e) == k
    ensures Total(f, s) + Total(g, s) == |s| as real * k
  {
    if |s| > 0 {
      var x := s[|s|-1];
      TotalOpposite(f, g, s[..|s|-1], k);
      assert x in s && f(x) + g(x) == k;
      assert |s| as real * k == (|s| - 1) as real * k + k;
    }
  }

  /** Summing over the images of the cells. */
  lemma {:induction false} TotalOver(f: int -> real, g: int -> real, s: seq<int>, t: seq<int>)
    requires |s| == |t| && forall k :: 0 <= k < |s| ==> g(s[k]) == f(t[k])
    ensures Total(g, s) == Total(f, t)
  {
    if |s| > 0 { TotalOver(f, g, s[..|s|-1], t[..|t|-1]); }
  }
}
