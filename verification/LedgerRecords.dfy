/** The records of the hash-chained action ledger: what is hashed, what links to what, and the
    objects they are made of. SHA-256 is a function parameter. */
module LedgerRecords {
  import opened Wrappers
  import opened JsonText
  import opened JsonSpelling
  import opened CanonicalJson

  /** A JavaScript object: distinct keys in insertion order. */
  type Object = seq<Member>

  const HASH: Text := [104, 97, 115, 104]
  const SEQ: Text := [115, 101, 113]
  const PREV_HASH: Text := [112, 114, 101, 118, 72, 97, 115, 104]
  const AT: Text := [97, 116]
  const GENESIS: Text := Zeros(64)

  function Zeros(n: nat): (t: Text)
    ensures |t| == n
  {
    seq(n, i requires 0 <= i < n => 48 as Unit)
  }
  const NEWLINE: Unit := 10

  type Sha = Text -> Text

  // ---------------------------------------------------------------- objects

  function Get(o: Object, k: Text): Maybe<Json> {
    if |o| == 0 then None else if o[0].key == k then Some(o[0].value) else Get(o[1..], k)
  }

  /** Assignment to a property: in place when it exists, at the end when it does not. */
  function Put(o: Object, k: Text, v: Json): Object {
    if |o| == 0 then [Member(k, v)]
    else if o[0].key == k then [Member(k, v)] + o[1..]
    else [o[0]] + Put(o[1..], k, v)
  }

  function Without(o: Object, k: Text): Object {
    if |o| == 0 then [] else if o[0].key == k then Without(o[1..], k) else [o[0]] + Without(o[1..], k)
  }

  predicate Good(o: Object) {
    IsJson(Obj(o)) && WellKeyed(Obj(o))
  }

  function Decimal(n: nat): Text {
    if n < 10 then [48 + n] else Decimal(n / 10) + [48 + n % 10]
  }

  function DecimalValue(t: Text): nat {
    if |t| == 0 || !IsDigit(t[|t|-1]) then 0 else 10 * DecimalValue(t[..|t|-1]) + (t[|t|-1] - 48)
  }

  /** The sequence number a record carries; a record from elsewhere without one counts as 0. */
  function SeqOf(o: Object): nat {
    match Get(o, SEQ)
    case Some(Num(l)) => DecimalValue(l)
    case _ => 0
  }

  function HashOf(o: Object): Text {
    match Get(o, HASH)
    case Some(Str(h)) => h
    case _ => []
  }

  // ---------------------------------------------------------------- records and chains

  /** What is fed to the hash: the previous hash followed by the canonical body. */
  function HashInput(prev: Text, body: Object): Text {
    prev + Canonical(Obj(body))
  }

  function HashEntry(sha: Sha, prev: Text, body: Object): Text {
    sha(HashInput(prev, body))
  }

  /** The body `append` hashes: the entry with seq, prevHash and a time stamp set. */
  function BodyOf(entry: Object, seqNo: nat, prev: Text, now: Text): Object {
    Put(Put(Put(entry, SEQ, Num(Decimal(seqNo))), PREV_HASH, Str(prev)), AT, StampOf(entry, now))
  }

  /** The entry's own time stamp, or the clock's when it has none or a null one. */
  function StampOf(entry: Object, now: Text): Json {
    match Get(entry, AT)
    case Some(v) => if v == Null then Str(now) else v
    case None => Str(now)
  }

  function RecordOf(sha: Sha, entry: Object, seqNo: nat, prev: Text, now: Text): Object {
    var body := BodyOf(entry, seqNo, prev, now);
    Put(body, HASH, Str(HashEntry(sha, prev, body)))
  }

  /** One step of `verify`. */
  predicate Linked(sha: Sha, prev: Text, rec: Object) {
    var body := Without(rec, HASH);
    Get(body, PREV_HASH) == Some(Str(prev)) && Get(rec, HASH) == Some(Str(HashEntry(sha, prev, body)))
  }

  /** The hash record `i` must point back to. */
  function Prev(memory: seq<Object>, i: nat): Text
    requires i <= |memory|
  {
    if i == 0 then GENESIS else HashOf(memory[i - 1])
  }

  ghost predicate ChainOk(sha: Sha, memory: seq<Object>) {
    forall i :: 0 <= i < |memory| ==> Linked(sha, Prev(memory, i), memory[i])
  }

  ghost predicate AllGood(memory: seq<Object>) {
    forall i :: 0 <= i < |memory| ==> Good(memory[i])
  }

  ghost predicate Numbered(memory: seq<Object>) {
    forall i :: 0 <= i < |memory| ==> Get(memory[i], SEQ) == Some(Num(Decimal(i + 1)))
  }

  // ---------------------------------------------------------------- object lemmas

  lemma {:induction false} GetIs(o: Object, k: Text)
    ensures Get(o, k).Some? ==> exists i :: 0 <= i < |o| && o[i].key == k && o[i].value == Get(o, k).value
    ensures Get(o, k).None? ==> forall i :: 0 <= i < |o| ==> o[i].key != k
  {
    if |o| > 0 && o[0].key != k {
      GetIs(o[1..], k);
      if Get(o, k).Some? {
        var i :| 0 <= i < |o[1..]| && o[1..][i].key == k && o[1..][i].value == Get(o, k).value;
        assert o[i + 1].key == k;
      }
    }
  }

  lemma {:induction false} GetAt(o: Object, i: nat)
    requires Good(o) && i < |o|
    ensures Get(o, o[i].key) == Some(o[i].value)
  {
    if i > 0 {
      GoodTail(o);
      GetAt(o[1..], i - 1);
    }
  }

  lemma GoodTail(o: Object)
    requires Good(o) && |o| > 0
    ensures Good(o[1..])
  {
    var t := o[1..];
    forall i, j | 0 <= i < j < |t| ensures t[i].key != t[j].key { assert o[i + 1].key != o[j + 1].key; }
  }

  lemma {:induction false} PutGet(o: Object, k: Text, v: Json, x: Text)
    ensures Get(Put(o, k, v), x) == if x == k then Some(v) else Get(o, x)
  {
    if |o| > 0 && o[0].key != k {
      PutGet(o[1..], k, v, x);
      assert Put(o, k, v)[1..] == Put(o[1..], k, v);
    }
  }

  lemma {:induction false} PutShape(o: Object, k: Text, v: Json)
    ensures forall m :: m in Put(o, k, v) ==> m == Member(k, v) || m in o
  {
    if |o| > 0 && o[0].key != k { PutShape(o[1..], k, v); }
  }

  lemma {:induction false} PutGood(o: Object, k: Text, v: Json)
    requires Good(o) && IsJson(v) && WellKeyed(v)
    ensures Good(Put(o, k, v))
  {
    if |o| > 0 {
      GoodTail(o);
      if o[0].key != k {
        PutGood(o[1..], k, v);
        PutShape(o[1..], k, v);
        var p := Put(o[1..], k, v);
        forall j | 0 <= j < |p| ensures p[j].key != o[0].key {
          if p[j] in o[1..] {
            var n :| 0 <= n < |o[1..]| && o[1..][n] == p[j];
            assert o[0].key != o[n + 1].key;
          }
        }
        assert Put(o, k, v) == [o[0]] + p;
      }
    }
  }

  lemma {:induction false} WithoutGet(o: Object, k: Text, x: Text)
    ensures Get(Without(o, k), x) == if x == k then None else Get(o, x)
  {
    if |o| > 0 {
      WithoutGet(o[1..], k, x);
      if o[0].key != k { assert Without(o, k)[1..] == Without(o[1..], k); }
    }
  }

  lemma {:induction false} WithoutGood(o: Object, k: Text)
    requires Good(o)
    ensures Good(Without(o, k))
    ensures forall i :: 0 <= i < |Without(o, k)| ==> Without(o, k)[i] in o && Without(o, k)[i].key != k
  {
    if |o| > 0 {
      GoodTail(o);
      WithoutGood(o[1..], k);
      var w := Without(o[1..], k);
      assert forall m :: m in o[1..] ==> m in o;
      if o[0].key != k {
        forall j | 0 <= j < |w| ensures w[j].key != o[0].key {
          var n :| 0 <= n < |o[1..]| && o[1..][n] == w[j];
          assert o[0].key != o[n + 1].key;
        }
        assert Without(o, k) == [o[0]] + w;
      }
    }
  }

  /** Removing the hash from a record gives back the body it was put on, unless the body had one. */
  lemma {:induction false} WithoutPut(o: Object, k: Text, v: Json)
    requires Good(o) && Get(o, k) == None
    ensures Without(Put(o, k, v), k) == o
  {
    if |o| == 0 {
    } else {
      GoodTail(o);
      WithoutPut(o[1..], k, v);
      assert Put(o, k, v)[1..] == Put(o[1..], k, v);
    }
  }

  /** Two objects are the same up to order exactly when every property reads the same up to order. */
  lemma SameByGet(a: Object, b: Object)
    requires Good(a) && Good(b)
    requires forall k ::
      (Get(a, k).Some? <==> Get(b, k).Some?) && (Get(a, k).Some? ==> SameUpToOrder(Get(a, k).value, Get(b, k).value))
    ensures SameUpToOrder(Obj(a), Obj(b))
  {
    forall k ensures k in Keys(a) <==> k in Keys(b) {
      KeyIsGettable(a, k);
      KeyIsGettable(b, k);
    }
    forall i, j | 0 <= i < |a| && 0 <= j < |b| && a[i].key == b[j].key ensures SameUpToOrder(a[i].value, b[j].value) {
      GetAt(a, i);
      GetAt(b, j);
    }
  }

  lemma GetBySame(a: Object, b: Object, k: Text)
    requires Good(a) && Good(b) && SameUpToOrder(Obj(a), Obj(b))
    ensures (Get(a, k).Some? <==> Get(b, k).Some?)
      && (Get(a, k).Some? ==> SameUpToOrder(Get(a, k).value, Get(b, k).value))
  {
    KeyIsGettable(a, k);
    KeyIsGettable(b, k);
    GetIs(a, k);
    GetIs(b, k);
  }

  lemma KeyIsGettable(o: Object, k: Text)
    ensures k in Keys(o) <==> Get(o, k).Some?
  {
    GetIs(o, k);
    if k in Keys(o) {
      var i :| 0 <= i < |Keys(o)| && Keys(o)[i] == k;
      assert o[i].key == k;
    }
    if Get(o, k).Some? {
      var i :| 0 <= i < |o| && o[i].key == k;
      assert Keys(o)[i] == k;
    }
  }

  lemma {:induction false} SameRefl(v: Json)
    requires WellKeyed(v)
    ensures SameUpToOrder(v, v)
    decreases v
  {
    match v
    case Arr(items) => forall i | 0 <= i < |items| ensures SameUpToOrder(items[i], items[i]) { SameRefl(items[i]); }
    case Obj(ms) =>
      forall i, j | 0 <= i < |ms| && 0 <= j < |ms| && ms[i].key == ms[j].key
        ensures SameUpToOrder(ms[i].value, ms[j].value) {
        assert i == j;
        SameRefl(ms[i].value);
      }
    case _ =>
  }
}
