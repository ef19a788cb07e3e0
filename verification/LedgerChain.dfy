/** What a chain that verifies pins down: its last hash fixes every record before it. */
module LedgerChain {
  import opened Wrappers
  import opened JsonText
  import opened CanonicalJson
  import opened LedgerRecords

  // ---------------------------------------------------------------- the assumption on the hash

  /** The text hashed for record `i`. */
  function InputAt(memory: seq<Object>, i: nat): Text
    requires i < |memory|
  {
    HashInput(Prev(memory, i), Without(memory[i], HASH))
  }

  /** Every text hashed when the chain is verified. */
  ghost function Hashed(memory: seq<Object>): set<Text> {
    set i | 0 <= i < |memory| :: InputAt(memory, i)
  }

  /** No two of these texts share a hash. */
  ghost predicate CollisionFree(sha: Sha, texts: set<Text>) {
    forall a, b :: a in texts && b in texts && sha(a) == sha(b) ==> a == b
  }

  ghost predicate FixedLength(sha: Sha) {
    forall t :: |sha(t)| == 64
  }

  // ---------------------------------------------------------------- one step back

  lemma PrevLength(sha: Sha, memory: seq<Object>, i: nat)
    requires FixedLength(sha) && ChainOk(sha, memory) && i <= |memory|
    ensures |Prev(memory, i)| == 64
  {
    if i > 0 { assert Linked(sha, Prev(memory, i - 1), memory[i - 1]); }
  }

  lemma SplitAt64(p: Text, q: Text, a: Text, b: Text)
    requires |p| == |q| && p + a == q + b
    ensures p == q && a == b
  {
    assert (p + a)[..|p|] == p && (q + b)[..|q|] == q;
    assert (p + a)[|p|..] == a && (q + b)[|q|..] == b;
  }

  /** Bodies that are the same up to order, with one hash, are the same records up to order. */
  lemma SameBodySameRecord(a: Object, b: Object)
    requires Good(a) && Good(b) && Get(a, HASH).Some? && Get(a, HASH) == Get(b, HASH)
    requires SameUpToOrder(Obj(Without(a, HASH)), Obj(Without(b, HASH)))
    ensures SameUpToOrder(Obj(a), Obj(b))
  {
    var x, y := Without(a, HASH), Without(b, HASH);
    WithoutGood(a, HASH);
    WithoutGood(b, HASH);
    forall k
      ensures (Get(a, k).Some? <==> Get(b, k).Some?)
      ensures Get(a, k).Some? ==> SameUpToOrder(Get(a, k).value, Get(b, k).value)
    {
      WithoutGet(a, HASH, k);
      WithoutGet(b, HASH, k);
      if k == HASH {
        GetIs(a, HASH);
        SameRefl(Get(a, HASH).value);
      } else {
        GetBySame(x, y, k);
      }
    }
    SameByGet(a, b);
  }

  lemma HashAt(sha: Sha, memory: seq<Object>, i: nat)
    requires ChainOk(sha, memory) && i < |memory|
    ensures InputAt(memory, i) in Hashed(memory) && sha(InputAt(memory, i)) == HashOf(memory[i])
    ensures Get(memory[i], HASH) == Some(Str(HashOf(memory[i])))
  {
    assert Linked(sha, Prev(memory, i), memory[i]);
    hide ChainOk, HashInput, Without, Get, Prev;
    HashOfLinked(sha, Prev(memory, i), memory[i]);
  }

  lemma HashOfLinked(sha: Sha, prev: Text, rec: Object)
    requires Linked(sha, prev, rec)
    ensures Get(rec, HASH) == Some(Str(sha(HashInput(prev, Without(rec, HASH)))))
    ensures HashOf(rec) == sha(HashInput(prev, Without(rec, HASH)))
  {
    hide HashInput, Without, Get;
  }

  lemma GoodAt(memory: seq<Object>, i: nat)
    requires AllGood(memory) && i < |memory|
    ensures Good(memory[i])
  {
  }

  lemma SameInput(sha: Sha, texts: set<Text>, a: Text, b: Text)
    requires CollisionFree(sha, texts) && a in texts && b in texts && sha(a) == sha(b)
    ensures a == b
  {
  }

  /** Equal hashes at two positions: equal records there, and equal hashes one step before. */
  lemma StepBack(sha: Sha, m1: seq<Object>, m2: seq<Object>, i: nat, j: nat)
    requires FixedLength(sha) && ChainOk(sha, m1) && ChainOk(sha, m2) && AllGood(m1) && AllGood(m2)
    requires CollisionFree(sha, Hashed(m1) + Hashed(m2))
    requires i < |m1| && j < |m2| && HashOf(m1[i]) == HashOf(m2[j])
    ensures Prev(m1, i) == Prev(m2, j) && SameUpToOrder(Obj(m1[i]), Obj(m2[j]))
  {
    hide ChainOk, AllGood, Linked, Hashed, CollisionFree, FixedLength, Canonical, Without, SameUpToOrder, HashOf, Prev,
      Good;
    var b1, b2 := Without(m1[i], HASH), Without(m2[j], HASH);
    HashAt(sha, m1, i);
    HashAt(sha, m2, j);
    PrevLength(sha, m1, i);
    PrevLength(sha, m2, j);
    GoodAt(m1, i);
    GoodAt(m2, j);
    SameInput(sha, Hashed(m1) + Hashed(m2), InputAt(m1, i), InputAt(m2, j));
    SplitAt64(Prev(m1, i), Prev(m2, j), Canonical(Obj(b1)), Canonical(Obj(b2)));
    WithoutGood(m1[i], HASH);
    WithoutGood(m2[j], HASH);
    CanonicalDeterminesValue(Obj(b1), Obj(b2));
    SameBodySameRecord(m1[i], m2[j]);
  }

  // ---------------------------------------------------------------- the whole chain

  /** The records `d` places from the end are the same up to key order. */
  ghost predicate AgreeAt(m1: seq<Object>, m2: seq<Object>, d: nat) {
    1 <= d <= |m1| && d <= |m2| && SameUpToOrder(Obj(m1[|m1| - d]), Obj(m2[|m2| - d]))
  }

  ghost predicate AgreeOnLast(m1: seq<Object>, m2: seq<Object>, n: nat) {
    forall d :: 1 <= d <= n ==> AgreeAt(m1, m2, d)
  }

  lemma {:induction false} AgreeBack(sha: Sha, m1: seq<Object>, m2: seq<Object>, n: nat)
    requires FixedLength(sha) && ChainOk(sha, m1) && ChainOk(sha, m2) && AllGood(m1) && AllGood(m2)
    requires CollisionFree(sha, Hashed(m1) + Hashed(m2))
    requires Prev(m1, |m1|) == Prev(m2, |m2|) && n <= |m1| && n <= |m2|
    ensures AgreeOnLast(m1, m2, n) && Prev(m1, |m1| - n) == Prev(m2, |m2| - n)
  {
    hide Linked, Good, SameUpToOrder, CollisionFree, ChainOk, AllGood, FixedLength, Hashed;
    if n > 0 {
      AgreeBack(sha, m1, m2, n - 1);
      StepBack(sha, m1, m2, |m1| - n, |m2| - n);
    }
  }

  /** Two chains of one length that both verify and end in one hash hold the same records. An
      edit, deletion, insertion or swap that keeps length and tip therefore cannot verify. */
  lemma TipDeterminesHistory(sha: Sha, m1: seq<Object>, m2: seq<Object>)
    requires FixedLength(sha) && CollisionFree(sha, Hashed(m1) + Hashed(m2))
    requires ChainOk(sha, m1) && ChainOk(sha, m2) && AllGood(m1) && AllGood(m2)
    requires |m1| == |m2| && Prev(m1, |m1|) == Prev(m2, |m2|)
    ensures forall i :: 0 <= i < |m1| ==> SameUpToOrder(Obj(m1[i]), Obj(m2[i]))
  {
    hide ChainOk, AllGood, CollisionFree, SameUpToOrder, FixedLength, Hashed, Prev;
    AgreeBack(sha, m1, m2, |m1|);
    forall i | 0 <= i < |m1| ensures SameUpToOrder(Obj(m1[i]), Obj(m2[i])) {
      var d := |m1| - i;
      assert AgreeAt(m1, m2, d);
    }
  }

  /** The length too, as long as nothing that was hashed hashes to the genesis value. */
  lemma TipDeterminesLength(sha: Sha, m1: seq<Object>, m2: seq<Object>)
    requires FixedLength(sha) && CollisionFree(sha, Hashed(m1) + Hashed(m2))
    requires ChainOk(sha, m1) && ChainOk(sha, m2) && AllGood(m1) && AllGood(m2)
    requires forall t :: t in Hashed(m1) + Hashed(m2) ==> sha(t) != GENESIS
    requires Prev(m1, |m1|) == Prev(m2, |m2|)
    ensures |m1| == |m2|
  {
    hide ChainOk, AllGood, SameUpToOrder, FixedLength, Prev, Hashed;
    assert Hashed(m1) + Hashed(m2) == Hashed(m2) + Hashed(m1);
    if |m1| < |m2| {
      GenesisInside(sha, m1, m2);
    } else if |m2| < |m1| {
      GenesisInside(sha, m2, m1);
    }
  }

  lemma GenesisInside(sha: Sha, short: seq<Object>, long: seq<Object>)
    requires FixedLength(sha) && CollisionFree(sha, Hashed(short) + Hashed(long))
    requires ChainOk(sha, short) && ChainOk(sha, long) && AllGood(short) && AllGood(long)
    requires |short| < |long| && Prev(short, |short|) == Prev(long, |long|)
    ensures exists t :: t in Hashed(long) && sha(t) == GENESIS
  {
    AgreeBack(sha, short, long, |short|);
    var i := |long| - |short| - 1;
    HashAt(sha, long, i);
    hide AllGood, CollisionFree, SameUpToOrder, FixedLength, AgreeOnLast, ChainOk, Hashed, HashOf, HashInput, InputAt,
      Without;
    assert Prev(short, 0) == GENESIS && Prev(long, i + 1) == HashOf(long[i]);
    var t := InputAt(long, i);
    assert t in Hashed(long) && sha(t) == GENESIS;
  }

  // ---------------------------------------------------------------- appending

  lemma {:induction false} DecimalIsNumber(n: nat)
    ensures |Decimal(n)| > 0 && IsDigit(Decimal(n)[0]) && (n > 0 ==> Decimal(n)[0] != 48)
    ensures Digits(Decimal(n)) == |Decimal(n)|
    ensures forall i :: 0 <= i < |Decimal(n)| ==> IsDigit(Decimal(n)[i])
    ensures DecimalValue(Decimal(n)) == n
  {
    if n < 10 {
      assert Decimal(n)[..0] == [] && Decimal(n)[1..] == [];
    } else {
      var t := Decimal(n / 10);
      DecimalIsNumber(n / 10);
      assert Decimal(n) == t + [48 + n % 10];
      assert Decimal(n)[..|t|] == t;
      AllDigits(Decimal(n));
    }
  }

  lemma {:induction false} AllDigits(t: Text)
    requires forall i :: 0 <= i < |t| ==> IsDigit(t[i])
    ensures Digits(t) == |t|
  {
    if |t| > 0 { AllDigits(t[1..]); }
  }

  lemma DecimalIsJson(n: nat)
    ensures IsNumber(Decimal(n))
  {
    var t := Decimal(n);
    DecimalIsNumber(n);
    assert t[|t|..] == [];
    if n == 0 { assert t == [48] && t[1..] == []; }
  }

  lemma BodyIsGood(entry: Object, seqNo: nat, prev: Text, now: Text)
    requires Good(entry)
    ensures Good(BodyOf(entry, seqNo, prev, now))
    ensures Get(BodyOf(entry, seqNo, prev, now), SEQ) == Some(Num(Decimal(seqNo)))
    ensures Get(BodyOf(entry, seqNo, prev, now), PREV_HASH) == Some(Str(prev))
    ensures Get(BodyOf(entry, seqNo, prev, now), HASH) == Get(entry, HASH)
  {
    DecimalIsJson(seqNo);
    var e1 := Put(entry, SEQ, Num(Decimal(seqNo)));
    var e2 := Put(e1, PREV_HASH, Str(prev));
    var at := StampOf(entry, now);
    GetIs(entry, AT);
    PutGood(entry, SEQ, Num(Decimal(seqNo)));
    PutGood(e1, PREV_HASH, Str(prev));
    PutGood(e2, AT, at);
    assert SEQ[0] == 115 && PREV_HASH[0] == 112 && AT[0] == 97 && HASH[0] == 104;
    PutGet(entry, SEQ, Num(Decimal(seqNo)), SEQ);
    PutGet(e1, PREV_HASH, Str(prev), SEQ);
    PutGet(e2, AT, at, SEQ);
    PutGet(e1, PREV_HASH, Str(prev), PREV_HASH);
    PutGet(e2, AT, at, PREV_HASH);
    PutGet(entry, SEQ, Num(Decimal(seqNo)), HASH);
    PutGet(e1, PREV_HASH, Str(prev), HASH);
    PutGet(e2, AT, at, HASH);
  }

  /** The four properties a record gets, as they are spelled. */
  lemma KeysAreSpelled()
    ensures SEQ == ['s' as int, 'e' as int, 'q' as int]
    ensures PREV_HASH == ['p' as int, 'r' as int, 'e' as int, 'v' as int, 'H' as int, 'a' as int, 's' as int,
      'h' as int]
    ensures AT == ['a' as int, 't' as int] && HASH == ['h' as int, 'a' as int, 's' as int, 'h' as int]
    ensures |GENESIS| == 64 && forall i :: 0 <= i < 64 ==> GENESIS[i] == '0' as int
  {
  }

  /** `rec` is the entry itself, stamped, numbered and chained to `prev`. */
  ghost predicate Holds(sha: Sha, rec: Object, entry: Object, seqNo: nat, prev: Text, now: Text) {
    && (forall k :: k !in [SEQ, PREV_HASH, AT, HASH] ==> Get(rec, k) == Get(entry, k))
    && Get(rec, SEQ) == Some(Num(Decimal(seqNo))) && Get(rec, PREV_HASH) == Some(Str(prev))
    && Get(rec, AT) == (if Get(entry, AT) == None || Get(entry, AT) == Some(Null)
                        then Some(Str(now)) else Get(entry, AT))
    && (Get(entry, HASH) == None ==> Get(rec, HASH) == Some(Str(sha(prev + Canonical(Obj(Without(rec, HASH)))))))
  }

  lemma {:induction false} NoHashNoChange(o: Object)
    requires Get(o, HASH) == None
    ensures Without(o, HASH) == o
  {
    if |o| > 0 { NoHashNoChange(o[1..]); }
  }

  /** Every property of a record. */
  lemma RecordGet(sha: Sha, entry: Object, seqNo: nat, prev: Text, now: Text, k: Text)
    ensures Get(BodyOf(entry, seqNo, prev, now), k) ==
      if k == AT then Some(StampOf(entry, now)) else if k == PREV_HASH then Some(Str(prev))
      else if k == SEQ then Some(Num(Decimal(seqNo))) else Get(entry, k)
    ensures Get(RecordOf(sha, entry, seqNo, prev, now), k) ==
      if k == HASH then Some(Str(HashEntry(sha, prev, BodyOf(entry, seqNo, prev, now))))
      else Get(BodyOf(entry, seqNo, prev, now), k)
  {
    hide Get, Put, Decimal, HashEntry, StampOf;
    var e1 := Put(entry, SEQ, Num(Decimal(seqNo)));
    var e2 := Put(e1, PREV_HASH, Str(prev));
    PutGet(entry, SEQ, Num(Decimal(seqNo)), k);
    PutGet(e1, PREV_HASH, Str(prev), k);
    PutGet(e2, AT, StampOf(entry, now), k);
    PutGet(BodyOf(entry, seqNo, prev, now), HASH, Str(HashEntry(sha, prev, BodyOf(entry, seqNo, prev, now))), k);
  }

  /** Without a hash of its own the body is the record less its hash. */
  lemma RecordLessHash(sha: Sha, entry: Object, seqNo: nat, prev: Text, now: Text)
    requires Get(entry, HASH) == None
    ensures Without(RecordOf(sha, entry, seqNo, prev, now), HASH) == BodyOf(entry, seqNo, prev, now)
  {
    KeysDiffer();
    hide Get, Put, Without, BodyOf, HashEntry;
    RecordGet(sha, entry, seqNo, prev, now, HASH);
    WithoutAfterPut(BodyOf(entry, seqNo, prev, now), HASH, Str(HashEntry(sha, prev, BodyOf(entry, seqNo, prev, now))));
    NoHashNoChange(BodyOf(entry, seqNo, prev, now));
  }

  lemma KeysDiffer()
    ensures SEQ != PREV_HASH && SEQ != AT && SEQ != HASH && PREV_HASH != AT && PREV_HASH != HASH && AT != HASH
  {
    assert SEQ[0] == 115 && PREV_HASH[0] == 112 && AT[0] == 97 && HASH[0] == 104;
  }

  /** The record an append writes holds the entry, whatever it is. */
  lemma RecordHolds(sha: Sha, entry: Object, seqNo: nat, prev: Text, now: Text)
    ensures Holds(sha, RecordOf(sha, entry, seqNo, prev, now), entry, seqNo, prev, now)
  {
    KeysDiffer();
    hide Get, Put, Without, BodyOf, RecordOf, Decimal, Canonical;
    var rec := RecordOf(sha, entry, seqNo, prev, now);
    forall k | k !in [SEQ, PREV_HASH, AT, HASH] ensures Get(rec, k) == Get(entry, k) {
      RecordGet(sha, entry, seqNo, prev, now, k);
    }
    RecordGet(sha, entry, seqNo, prev, now, SEQ);
    RecordGet(sha, entry, seqNo, prev, now, PREV_HASH);
    RecordGet(sha, entry, seqNo, prev, now, AT);
    RecordGet(sha, entry, seqNo, prev, now, HASH);
    if Get(entry, HASH) == None { RecordLessHash(sha, entry, seqNo, prev, now); }
  }

  lemma DecimalDigits(n: nat)
    ensures n < 10 ==> Decimal(n) == [n + '0' as int]
    ensures n >= 10 ==> Decimal(n) == Decimal(n / 10) + [n % 10 + '0' as int]
  {
  }

  lemma RecordIsGood(sha: Sha, entry: Object, seqNo: nat, prev: Text, now: Text)
    requires Good(entry)
    ensures Good(RecordOf(sha, entry, seqNo, prev, now))
  {
    var body := BodyOf(entry, seqNo, prev, now);
    BodyIsGood(entry, seqNo, prev, now);
    PutGood(body, HASH, Str(HashEntry(sha, prev, body)));
  }

  /** The record `append` writes links to the tip exactly when the entry brought no hash of its
      own, provided the two texts in question do not collide. */
  lemma RecordLinks(sha: Sha, entry: Object, seqNo: nat, prev: Text, now: Text)
    requires Good(entry)
    requires var body := BodyOf(entry, seqNo, prev, now);
      CollisionFree(sha, {HashInput(prev, body), HashInput(prev, Without(body, HASH))})
    ensures var rec := RecordOf(sha, entry, seqNo, prev, now);
      && Good(rec) && Get(rec, SEQ) == Some(Num(Decimal(seqNo)))
      && HashOf(rec) == HashEntry(sha, prev, BodyOf(entry, seqNo, prev, now))
      && (Linked(sha, prev, rec) <==> Get(entry, HASH) == None)
  {
    var body := BodyOf(entry, seqNo, prev, now);
    var h := Str(HashEntry(sha, prev, body));
    var rec := Put(body, HASH, h);
    BodyIsGood(entry, seqNo, prev, now);
    PutGood(body, HASH, h);
    PutGet(body, HASH, h, HASH);
    PutGet(body, HASH, h, SEQ);
    PutGet(body, HASH, h, PREV_HASH);
    assert SEQ[0] == 115 && PREV_HASH[0] == 112 && HASH[0] == 104;
    WithoutGet(rec, HASH, PREV_HASH);
    WithoutAfterPut(body, HASH, h);
    if Get(body, HASH) == None {
      WithoutPut(body, HASH, h);
    } else {
      HashKeyChangesText(body, prev);
    }
  }

  lemma {:induction false} WithoutAfterPut(o: Object, k: Text, v: Json)
    ensures Without(Put(o, k, v), k) == Without(o, k)
  {
    if |o| > 0 {
      if o[0].key == k {
        assert Put(o, k, v)[1..] == o[1..];
      } else {
        WithoutAfterPut(o[1..], k, v);
        assert Put(o, k, v)[1..] == Put(o[1..], k, v);
      }
    }
  }

  lemma HashKeyChangesText(body: Object, prev: Text)
    requires Good(body) && Get(body, HASH).Some?
    ensures HashInput(prev, body) != HashInput(prev, Without(body, HASH))
  {
    var w := Without(body, HASH);
    WithoutGood(body, HASH);
    WithoutGet(body, HASH, HASH);
    if HashInput(prev, body) == HashInput(prev, w) {
      SplitAt64(prev, prev, Canonical(Obj(body)), Canonical(Obj(w)));
      CanonicalDeterminesValue(Obj(body), Obj(w));
      GetBySame(body, w, HASH);
    }
  }

  /** Appending to a chain that verifies keeps it verifying exactly when the entry has no hash key. */
  lemma AppendKeepsChain(sha: Sha, memory: seq<Object>, entry: Object, seqNo: nat, now: Text)
    requires ChainOk(sha, memory) && Good(entry)
    requires var body := BodyOf(entry, seqNo, Prev(memory, |memory|), now);
      CollisionFree(sha, {HashInput(Prev(memory, |memory|), body),
        HashInput(Prev(memory, |memory|), Without(body, HASH))})
    ensures ChainOk(sha, memory + [RecordOf(sha, entry, seqNo, Prev(memory, |memory|), now)]) <==>
      Get(entry, HASH) == None
  {
    var prev := Prev(memory, |memory|);
    var rec := RecordOf(sha, entry, seqNo, prev, now);
    var more := memory + [rec];
    RecordLinks(sha, entry, seqNo, prev, now);
    hide Linked, RecordOf, BodyOf, CollisionFree, Good, HashInput, HashOf;
    ChainMore(sha, memory, rec);
  }

  lemma ChainMore(sha: Sha, memory: seq<Object>, rec: Object)
    ensures ChainOk(sha, memory + [rec]) <==> ChainOk(sha, memory) && Linked(sha, Prev(memory, |memory|), rec)
  {
    hide Linked, HashOf;
    var more := memory + [rec];
    assert forall i :: 0 <= i <= |memory| ==> Prev(more, i) == Prev(memory, i);
    assert more[|memory|] == rec;
    assert forall i :: 0 <= i < |memory| ==> more[i] == memory[i];
    if ChainOk(sha, more) {
      forall i | 0 <= i < |memory| ensures Linked(sha, Prev(memory, i), memory[i]) {
        assert Linked(sha, Prev(more, i), more[i]);
      }
      assert Linked(sha, Prev(more, |memory|), more[|memory|]);
    }
  }
}
