/** The stable stringify under the ledger hash: object keys sorted at every depth. Its text
    determines the value up to key order, and nothing but key order is forgotten. */
module CanonicalJson {
  import opened JsonText
  import opened JsonSpelling

  // ---------------------------------------------------------------- keys and their order

  function Keys(ms: seq<Member>): (ks: seq<Text>)
    ensures |ks| == |ms| && forall i :: 0 <= i < |ms| ==> ks[i] == ms[i].key
  {
    seq(|ms|, i requires 0 <= i < |ms| => ms[i].key)
  }

  /** The position of the member named `k`. */
  function Find(ms: seq<Member>, k: Text): (i: nat)
    requires k in Keys(ms)
    ensures i < |ms| && ms[i].key == k
  {
    assert exists j :: 0 <= j < |ms| && ms[j].key == k;
    if ms[0].key == k then 0
    else
      assert k in Keys(ms[1..]) by {
        var j :| 0 <= j < |ms| && ms[j].key == k;
        assert Keys(ms[1..])[j - 1] == k;
      }
      1 + Find(ms[1..], k)
  }

  /** Order by code unit, a proper prefix first: the default order of Array.prototype.sort. */
  predicate Before(a: Text, b: Text) {
    if |b| == 0 then false
    else if |a| == 0 then true
    else a[0] < b[0] || (a[0] == b[0] && Before(a[1..], b[1..]))
  }

  function Insert(k: Text, ks: seq<Text>): (r: seq<Text>)
    ensures |r| == |ks| + 1
  {
    if |ks| == 0 || Before(k, ks[0]) then [k] + ks else [ks[0]] + Insert(k, ks[1..])
  }

  function Sort(ks: seq<Text>): (r: seq<Text>)
    ensures |r| == |ks|
  {
    if |ks| == 0 then [] else Insert(ks[0], Sort(ks[1..]))
  }

  // ---------------------------------------------------------------- the function itself

  function Quote(s: Text): Text {
    QuoteTo(s, [])
  }

  function Join(parts: seq<Text>): Text {
    if |parts| == 0 then []
    else if |parts| == 1 then parts[0]
    else parts[0] + [COMMA] + Join(parts[1..])
  }

  /** Leaves through JSON.stringify, lists in order, object entries by sorted key. */
  function Canonical(v: Json): Text
    decreases v, 0
  {
    match v
    case Arr(items) => [OPEN_LIST] + Join(CanonicalItems(items)) + [CLOSE_LIST]
    case Obj(ms) => SortKeepsMembers(Keys(ms)); [OPEN] + Join(CanonicalEntries(ms, Sort(Keys(ms)))) + [CLOSE]
    case _ => Print(v)
  }

  function CanonicalItems(items: seq<Json>): (r: seq<Text>)
    ensures |r| == |items|
    decreases items, 0
  {
    if |items| == 0 then [] else [Canonical(items[0])] + CanonicalItems(items[1..])
  }

  function CanonicalEntries(ms: seq<Member>, ks: seq<Text>): (r: seq<Text>)
    requires forall k :: k in ks ==> k in Keys(ms)
    ensures |r| == |ks|
    decreases ms, |ks|
  {
    if |ks| == 0 then []
    else [Quote(ks[0]) + [COLON] + Canonical(ms[Find(ms, ks[0])].value)] + CanonicalEntries(ms, ks[1..])
  }

  // ---------------------------------------------------------------- sorting

  ghost predicate Ascending(ks: seq<Text>) {
    forall i, j :: 0 <= i < j < |ks| ==> Before(ks[i], ks[j])
  }

  ghost predicate NoRepeats(ks: seq<Text>) {
    forall i, j :: 0 <= i < j < |ks| ==> ks[i] != ks[j]
  }

  lemma PrefixHead(a: Text, b: Text)
    requires |a| > 0 && |b| > 0
    ensures forall i :: 0 < i <= |a| && i <= |b| && a[..i] == b[..i] ==> a[0] == b[0]
    ensures |a| <= |b| && b[..|a|] == a ==> a[0] == b[0]
  {
    forall i | 0 < i <= |a| && i <= |b| && a[..i] == b[..i] ensures a[0] == b[0] {
      assert a[..i][0] == a[0] && b[..i][0] == b[0];
    }
  }

  /** The code unit order of Array.prototype.sort: at the first difference the smaller unit, and a
      proper prefix, comes first. */
  lemma {:induction false} BeforeIs(a: Text, b: Text)
    ensures Before(a, b) <==>
      (|a| < |b| && b[..|a|] == a)
      || (exists i :: 0 <= i < |a| && i < |b| && a[..i] == b[..i] && a[i] < b[i])
  {
    if |a| > 0 && |b| > 0 && a[0] == b[0] {
      var x, y := a[1..], b[1..];
      BeforeIs(x, y);
      if |x| < |y| && y[..|x|] == x { assert b[..|a|] == [b[0]] + y[..|x|]; }
      if |a| < |b| && b[..|a|] == a { assert y[..|x|] == b[..|a|][1..]; }
      if i :| 0 <= i < |x| && i < |y| && x[..i] == y[..i] && x[i] < y[i] {
        assert a[..i + 1] == [a[0]] + x[..i] && b[..i + 1] == [b[0]] + y[..i];
        assert a[i + 1] < b[i + 1];
      }
      if i :| 0 <= i < |a| && i < |b| && a[..i] == b[..i] && a[i] < b[i] {
        assert x[..i - 1] == a[..i][1..] && y[..i - 1] == b[..i][1..];
        assert x[i - 1] < y[i - 1];
      }
    } else if |a| > 0 && |b| > 0 {
      PrefixHead(a, b);
      if a[0] < b[0] { assert a[..0] == b[..0]; }
    } else if |a| == 0 && |b| > 0 {
      assert b[..|a|] == a;
    }
  }

  lemma {:induction false} BeforeTotal(a: Text, b: Text)
    ensures Before(a, b) || a == b || Before(b, a)
    ensures !(Before(a, b) && Before(b, a)) && (Before(a, b) ==> a != b)
  {
    if |a| > 0 && |b| > 0 {
      BeforeTotal(a[1..], b[1..]);
      if a[0] == b[0] && a[1..] == b[1..] {
        assert a == [a[0]] + a[1..] && b == [b[0]] + b[1..];
      }
    }
  }

  lemma {:induction false} BeforeTransitive(a: Text, b: Text, c: Text)
    requires Before(a, b) && Before(b, c)
    ensures Before(a, c)
  {
    if |a| > 0 && a[0] == b[0] && b[0] == c[0] {
      BeforeTransitive(a[1..], b[1..], c[1..]);
    }
  }

  lemma {:induction false} InsertMembers(k: Text, ks: seq<Text>)
    ensures forall x :: x in Insert(k, ks) <==> x == k || x in ks
  {
    if |ks| > 0 && !Before(k, ks[0]) {
      InsertMembers(k, ks[1..]);
      assert forall x :: x in ks <==> x == ks[0] || x in ks[1..];
    }
  }

  lemma {:induction false} SortKeepsMembers(ks: seq<Text>)
    ensures forall x :: x in Sort(ks) <==> x in ks
  {
    if |ks| > 0 {
      SortKeepsMembers(ks[1..]);
      InsertMembers(ks[0], Sort(ks[1..]));
      assert forall x :: x in ks <==> x == ks[0] || x in ks[1..];
    }
  }

  lemma {:induction false} InsertAscending(k: Text, ks: seq<Text>)
    requires Ascending(ks) && k !in ks
    ensures Ascending(Insert(k, ks))
  {
    if |ks| == 0 {
    } else if Before(k, ks[0]) {
      forall j | 0 <= j < |ks| ensures Before(k, ks[j]) {
        if j > 0 { BeforeTransitive(k, ks[0], ks[j]); }
      }
    } else {
      BeforeTotal(k, ks[0]);
      assert k != ks[0];
      InsertAscending(k, ks[1..]);
      InsertMembers(k, ks[1..]);
      var r := Insert(k, ks[1..]);
      forall j | 0 <= j < |r| ensures Before(ks[0], r[j]) {
        assert r[j] in r;
        if r[j] != k {
          var i :| 0 <= i < |ks[1..]| && ks[1..][i] == r[j];
          assert ks[i + 1] == r[j];
        }
      }
    }
  }

  lemma {:induction false} SortAscending(ks: seq<Text>)
    requires NoRepeats(ks)
    ensures Ascending(Sort(ks))
  {
    if |ks| > 0 {
      SortAscending(ks[1..]);
      SortKeepsMembers(ks[1..]);
      InsertAscending(ks[0], Sort(ks[1..]));
    }
  }

  /** There is one ascending list of any given keys. */
  lemma {:induction false} AscendingUnique(a: seq<Text>, b: seq<Text>)
    requires Ascending(a) && Ascending(b) && forall x :: x in a <==> x in b
    ensures a == b
  {
    if |a| == 0 {
      SomeMember(b);
    } else if |b| == 0 {
      SomeMember(a);
    } else {
      LeastIsFirst(a, b);
      LeastIsFirst(b, a);
      BeforeTotal(a[0], b[0]);
      forall x ensures x in a[1..] <==> x in b[1..] {
        TailMember(a, x);
        TailMember(b, x);
      }
      AscendingUnique(a[1..], b[1..]);
      assert a == [a[0]] + a[1..] && b == [b[0]] + b[1..];
    }
  }

  lemma SomeMember(a: seq<Text>)
    ensures |a| == 0 || exists x :: x in a
  {
    if |a| > 0 { assert a[0] in a; }
  }

  lemma LeastIsFirst(a: seq<Text>, b: seq<Text>)
    requires Ascending(a) && |a| > 0 && |b| > 0 && forall x :: x in b ==> x in a
    ensures a[0] == b[0] || Before(a[0], b[0])
  {
    assert b[0] in a;
    var i :| 0 <= i < |a| && a[i] == b[0];
  }

  lemma TailMember(a: seq<Text>, x: Text)
    requires Ascending(a) && |a| > 0
    ensures x in a[1..] <==> x in a && x != a[0]
  {
    forall i | 0 < i < |a| ensures a[i] != a[0] { BeforeTotal(a[0], a[i]); }
    if x in a && x != a[0] {
      var i :| 0 <= i < |a| && a[i] == x;
      assert a[1..][i - 1] == x;
    }
  }

  lemma SortUnique(a: seq<Text>, b: seq<Text>)
    requires NoRepeats(a) && NoRepeats(b) && forall x :: x in a <==> x in b
    ensures Sort(a) == Sort(b)
  {
    SortAscending(a);
    SortAscending(b);
    SortKeepsMembers(a);
    SortKeepsMembers(b);
    AscendingUnique(Sort(a), Sort(b));
  }

  // ---------------------------------------------------------------- the value with its keys sorted

  /** Keys are distinct in every object, as in any JavaScript object. */
  predicate WellKeyed(v: Json)
    decreases v
  {
    match v
    case Arr(items) => forall i :: 0 <= i < |items| ==> WellKeyed(items[i])
    case Obj(ms) =>
      (forall i, j :: 0 <= i < j < |ms| ==> ms[i].key != ms[j].key)
      && forall i :: 0 <= i < |ms| ==> WellKeyed(ms[i].value)
    case _ => true
  }

  /** The same value up to the order of keys, at any depth. */
  ghost predicate SameUpToOrder(v: Json, w: Json)
    decreases v
  {
    match (v, w)
    case (Arr(a), Arr(b)) => |a| == |b| && forall i :: 0 <= i < |a| ==> SameUpToOrder(a[i], b[i])
    case (Obj(a), Obj(b)) =>
      (forall k :: k in Keys(a) <==> k in Keys(b))
      && forall i, j :: 0 <= i < |a| && 0 <= j < |b| && a[i].key == b[j].key ==> SameUpToOrder(a[i].value, b[j].value)
    case _ => v == w
  }

  function Normalize(v: Json): Json
    decreases v, 0
  {
    match v
    case Arr(items) => Arr(NormalItems(items))
    case Obj(ms) => SortKeepsMembers(Keys(ms)); Obj(NormalEntries(ms, Sort(Keys(ms))))
    case _ => v
  }

  function NormalItems(items: seq<Json>): (r: seq<Json>)
    ensures |r| == |items|
    decreases items, 0
  {
    if |items| == 0 then [] else [Normalize(items[0])] + NormalItems(items[1..])
  }

  function NormalEntries(ms: seq<Member>, ks: seq<Text>): (r: seq<Member>)
    requires forall k :: k in ks ==> k in Keys(ms)
    ensures |r| == |ks|
    decreases ms, |ks|
  {
    if |ks| == 0 then []
    else [Member(ks[0], Normalize(ms[Find(ms, ks[0])].value))] + NormalEntries(ms, ks[1..])
  }

  lemma {:induction false} NormalItemsAt(items: seq<Json>, i: nat)
    requires i < |items|
    ensures NormalItems(items)[i] == Normalize(items[i])
  {
    if i > 0 { NormalItemsAt(items[1..], i - 1); }
  }

  lemma {:induction false} NormalEntriesAt(ms: seq<Member>, ks: seq<Text>, i: nat)
    requires (forall k :: k in ks ==> k in Keys(ms)) && i < |ks|
    ensures ks[i] in Keys(ms)
    ensures NormalEntries(ms, ks)[i] == Member(ks[i], Normalize(ms[Find(ms, ks[i])].value))
  {
    if i > 0 { NormalEntriesAt(ms, ks[1..], i - 1); }
  }

  // ---------------------------------------------------------------- canonical text = printed normal form

  lemma {:induction false} EscapeAppend(s: Text, prev: Unit, a: Text, b: Text)
    ensures EscapeTo(s, prev, a + b) == EscapeTo(s, prev, a) + b
  {
    if |s| > 0 {
      EscapeAppend(s[1..], s[0], a, b);
      var e := EscapeUnit(s[0], prev, if |s| > 1 then s[1] else 0);
      assert e + (EscapeTo(s[1..], s[0], a) + b) == (e + EscapeTo(s[1..], s[0], a)) + b;
    }
  }

  lemma QuoteAppend(s: Text, rest: Text)
    ensures Quote(s) + rest == QuoteTo(s, rest)
  {
    assert [QUOTE] + [] == [QUOTE];
    EscapeAppend(s, 0, [QUOTE], rest);
    assert ([QUOTE] + EscapeTo(s, 0, [QUOTE])) + rest == [QUOTE] + (EscapeTo(s, 0, [QUOTE]) + rest);
  }

  /** Sorting while printing is printing what was sorted. */
  lemma {:induction false} CanonicalIsPrint(v: Json, rest: Text)
    ensures Canonical(v) + rest == PrintTo(Normalize(v), rest)
    decreases v, 0
  {
    match v
    case Str(s) => QuoteAppend(s, rest);
    case Arr(items) =>
      JoinItems(items, [CLOSE_LIST] + rest);
      Enclose(OPEN_LIST, Join(CanonicalItems(items)), CLOSE_LIST, rest);
    case Obj(ms) =>
      var ks := Sort(Keys(ms));
      SortKeepsMembers(Keys(ms));
      JoinEntries(ms, ks, [CLOSE] + rest);
      Enclose(OPEN, Join(CanonicalEntries(ms, ks)), CLOSE, rest);
    case Null => EmptyRight(NULL, rest);
    case Bool(b) => EmptyRight(if b then TRUE else FALSE, rest);
    case Num(l) => EmptyRight(l, rest);
  }

  lemma Enclose(open: Unit, inner: Text, close: Unit, rest: Text)
    ensures ([open] + inner + [close]) + rest == [open] + (inner + ([close] + rest))
  {
  }

  lemma EmptyRight(a: Text, rest: Text)
    ensures (a + []) + rest == a + rest
  {
  }

  lemma Regroup(p: Text, tail: Text, rest: Text)
    ensures (p + [COMMA] + tail) + rest == p + ([COMMA] + (tail + rest))
  {
  }

  lemma {:induction false} JoinItems(items: seq<Json>, rest: Text)
    ensures Join(CanonicalItems(items)) + rest == PrintItemsTo(NormalItems(items), rest)
    decreases items, 0
  {
    if |items| == 0 {
    } else {
      var parts, normal := CanonicalItems(items), NormalItems(items);
      assert parts[1..] == CanonicalItems(items[1..]) && normal[1..] == NormalItems(items[1..]);
      if |items| == 1 {
        CanonicalIsPrint(items[0], rest);
      } else {
        JoinItems(items[1..], rest);
        var tail := Join(CanonicalItems(items[1..]));
        CanonicalIsPrint(items[0], [COMMA] + (tail + rest));
        Regroup(parts[0], tail, rest);
      }
    }
  }

  lemma {:induction false} JoinEntries(ms: seq<Member>, ks: seq<Text>, rest: Text)
    requires forall k :: k in ks ==> k in Keys(ms)
    ensures Join(CanonicalEntries(ms, ks)) + rest == PrintMembersTo(NormalEntries(ms, ks), rest)
    decreases ms, |ks|
  {
    if |ks| == 0 {
    } else {
      var parts, normal := CanonicalEntries(ms, ks), NormalEntries(ms, ks);
      assert parts[1..] == CanonicalEntries(ms, ks[1..]) && normal[1..] == NormalEntries(ms, ks[1..]);
      var v := ms[Find(ms, ks[0])].value;
      if |ks| == 1 {
        EntryText(ks[0], v, rest);
      } else {
        JoinEntries(ms, ks[1..], rest);
        var tail := Join(CanonicalEntries(ms, ks[1..]));
        EntryText(ks[0], v, [COMMA] + (tail + rest));
        Regroup(parts[0], tail, rest);
      }
    }
  }

  lemma {:induction false} EntryText(k: Text, v: Json, rest: Text)
    ensures (Quote(k) + [COLON] + Canonical(v)) + rest == QuoteTo(k, [COLON] + PrintTo(Normalize(v), rest))
    decreases v, 1
  {
    CanonicalIsPrint(v, rest);
    QuoteAppend(k, [COLON] + PrintTo(Normalize(v), rest));
    hide Quote, QuoteTo, Canonical, PrintTo, Normalize;
    RegroupColon(Quote(k), Canonical(v), rest);
  }

  lemma RegroupColon(p: Text, tail: Text, rest: Text)
    ensures (p + [COLON] + tail) + rest == p + ([COLON] + (tail + rest))
  {
  }

  lemma {:induction false} NormalizeIsJson(v: Json)
    requires IsJson(v)
    ensures IsJson(Normalize(v))
    decreases v
  {
    match v
    case Arr(items) =>
      forall i | 0 <= i < |items| ensures IsJson(NormalItems(items)[i]) {
        NormalItemsAt(items, i);
        NormalizeIsJson(items[i]);
      }
    case Obj(ms) =>
      var ks := Sort(Keys(ms));
      SortKeepsMembers(Keys(ms));
      forall i | 0 <= i < |ks| ensures IsJson(NormalEntries(ms, ks)[i].value) {
        NormalEntriesAt(ms, ks, i);
        NormalizeIsJson(ms[Find(ms, ks[i])].value);
      }
    case _ =>
  }

  /** The canonical text can be read back, up to key order, with anything delimiter-led behind it. */
  lemma ReadCanonical(v: Json, rest: Text)
    requires IsJson(v) && (v.Num? ==> Delimited(rest))
    ensures ReadValue(Canonical(v) + rest) == Done(Normalize(v), rest)
  {
    CanonicalIsPrint(v, rest);
    NormalizeIsJson(v);
    ReadPrint(Normalize(v), rest);
  }

  // ---------------------------------------------------------------- equal text, equal up to order

  lemma {:induction false} SameNormalizes(v: Json, w: Json)
    requires WellKeyed(v) && WellKeyed(w) && SameUpToOrder(v, w)
    ensures Normalize(v) == Normalize(w)
    decreases v
  {
    match (v, w)
    case (Arr(a), Arr(b)) =>
      forall i | 0 <= i < |a| ensures NormalItems(a)[i] == NormalItems(b)[i] {
        NormalItemsAt(a, i);
        NormalItemsAt(b, i);
        SameNormalizes(a[i], b[i]);
      }
    case (Obj(a), Obj(b)) =>
      SortUnique(Keys(a), Keys(b));
      SortKeepsMembers(Keys(a));
      SortKeepsMembers(Keys(b));
      var ks := Sort(Keys(a));
      forall i | 0 <= i < |ks| ensures NormalEntries(a, ks)[i] == NormalEntries(b, ks)[i] {
        NormalEntriesAt(a, ks, i);
        NormalEntriesAt(b, ks, i);
        SameNormalizes(a[Find(a, ks[i])].value, b[Find(b, ks[i])].value);
      }
    case _ =>
  }

  lemma {:induction false} NormalizedSame(v: Json, w: Json)
    requires WellKeyed(v) && WellKeyed(w) && Normalize(v) == Normalize(w)
    ensures SameUpToOrder(v, w)
    decreases v
  {
    match (v, w)
    case (Arr(a), Arr(b)) =>
      forall i | 0 <= i < |a| ensures SameUpToOrder(a[i], b[i]) {
        NormalItemsAt(a, i);
        NormalItemsAt(b, i);
        NormalizedSame(a[i], b[i]);
      }
    case (Obj(a), Obj(b)) =>
      var ka, kb := Sort(Keys(a)), Sort(Keys(b));
      SortKeepsMembers(Keys(a));
      SortKeepsMembers(Keys(b));
      assert ka == kb by {
        forall i | 0 <= i < |ka| ensures ka[i] == kb[i] {
          NormalEntriesAt(a, ka, i);
          NormalEntriesAt(b, kb, i);
        }
      }
      forall i, j | 0 <= i < |a| && 0 <= j < |b| && a[i].key == b[j].key
        ensures SameUpToOrder(a[i].value, b[j].value)
      {
        assert Keys(a)[i] in Keys(a) && Keys(b)[j] in Keys(b);
        var n :| 0 <= n < |ka| && ka[n] == a[i].key;
        NormalEntriesAt(a, ka, n);
        NormalEntriesAt(b, kb, n);
        assert Find(a, ka[n]) == i && Find(b, kb[n]) == j;
        NormalizedSame(a[i].value, b[j].value);
      }
    case _ =>
  }

  /** Two values have one canonical text exactly when they differ in key order only. */
  lemma CanonicalDeterminesValue(v: Json, w: Json)
    requires IsJson(v) && IsJson(w) && WellKeyed(v) && WellKeyed(w)
    ensures Canonical(v) == Canonical(w) <==> SameUpToOrder(v, w)
  {
    CanonicalIsPrint(v, []);
    CanonicalIsPrint(w, []);
    assert Canonical(v) + [] == Canonical(v) && Canonical(w) + [] == Canonical(w);
    if Canonical(v) == Canonical(w) {
      NormalizeIsJson(v);
      NormalizeIsJson(w);
      ReadPrint(Normalize(v), []);
      ReadPrint(Normalize(w), []);
      NormalizedSame(v, w);
    }
    if SameUpToOrder(v, w) { SameNormalizes(v, w); }
  }
}
