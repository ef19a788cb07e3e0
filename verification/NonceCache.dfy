/** The signature cache with its oldest-first sweep, against the history of what it accepted. */
module NonceCache {

  const SIGNATURE_WINDOW_MS: int := 300000

  datatype Check = Check(sig: string, now: int, accepted: bool)
  datatype Entry = Entry(sig: string, expires: int)

  // ---------------------------------------------------------------- the rule over the history

  /** The acceptances still inside their time to live at `now`, oldest first. */
  function Live(history: seq<Check>, ttl: int, now: int): seq<Entry> {
    if |history| == 0 then []
    else
      var front, c := Live(history[..|history|-1], ttl, now), history[|history|-1];
      if c.accepted && c.now + ttl > now then front + [Entry(c.sig, c.now + ttl)] else front
  }

  predicate Holds(entries: seq<Entry>, sig: string) {
    exists k :: 0 <= k < |entries| && entries[k].sig == sig
  }

  /** Accept exactly when the signature has no live acceptance and fewer than `max` are live. */
  predicate Fresh(history: seq<Check>, ttl: int, max: nat, sig: string, now: int) {
    var live := Live(history, ttl, now);
    !Holds(live, sig) && |live| < max
  }

  ghost predicate Nondecreasing(history: seq<Check>) {
    forall i, j :: 0 <= i < j < |history| ==> history[i].now <= history[j].now
  }

  /** Every recorded answer is the one the rule gives. */
  ghost predicate Faithful(history: seq<Check>, ttl: int, max: nat) {
    forall k :: 0 <= k < |history| ==>
      (history[k].accepted <==> Fresh(history[..k], ttl, max, history[k].sig, history[k].now))
  }

  // ---------------------------------------------------------------- the sweep

  ghost predicate Sorted(entries: seq<Entry>) {
    forall i, j :: 0 <= i < j < |entries| ==> entries[i].expires <= entries[j].expires
  }

  function Unexpired(entries: seq<Entry>, now: int): seq<Entry> {
    if |entries| == 0 then []
    else if entries[0].expires <= now then Unexpired(entries[1..], now)
    else [entries[0]] + Unexpired(entries[1..], now)
  }

  /** Deletes from the oldest end and stops at the first entry that has not expired. */
  method Sweep(entries: seq<Entry>, now: int) returns (kept: seq<Entry>)
    requires Sorted(entries)
    ensures kept == Unexpired(entries, now) && Sorted(kept)
  {
    kept := entries;
    while |kept| > 0 && kept[0].expires <= now
      invariant Sorted(kept) && Unexpired(kept, now) == Unexpired(entries, now)
      decreases |kept|
    {
      kept := kept[1..];
    }
    if |kept| > 0 { NothingExpired(kept, now); }
  }

  /** In a list sorted by expiry, nothing behind an unexpired entry has expired. */
  lemma {:induction false} NothingExpired(entries: seq<Entry>, now: int)
    requires Sorted(entries) && (|entries| > 0 ==> entries[0].expires > now)
    ensures Unexpired(entries, now) == entries
  {
    if |entries| > 0 {
      NothingExpired(entries[1..], now);
    }
  }

  lemma {:induction false} UnexpiredAppend(a: seq<Entry>, e: Entry, now: int)
    ensures Unexpired(a + [e], now) == if e.expires <= now then Unexpired(a, now) else Unexpired(a, now) + [e]
  {
    if |a| == 0 {
      assert a + [e] == [e];
    } else {
      assert (a + [e])[1..] == a[1..] + [e];
      UnexpiredAppend(a[1..], e, now);
    }
  }

  /** Sweeping what was live at an earlier instant leaves what is live now. */
  lemma {:induction false} SweepOfLive(history: seq<Check>, ttl: int, then': int, now: int)
    requires then' <= now
    ensures Unexpired(Live(history, ttl, then'), now) == Live(history, ttl, now)
  {
    if |history| > 0 {
      var c := history[|history|-1];
      SweepOfLive(history[..|history|-1], ttl, then', now);
      if c.accepted && c.now + ttl > then' {
        UnexpiredAppend(Live(history[..|history|-1], ttl, then'), Entry(c.sig, c.now + ttl), now);
      }
    }
  }

  lemma {:induction false} LiveIsSorted(history: seq<Check>, ttl: int, now: int)
    requires Nondecreasing(history)
    ensures Sorted(Live(history, ttl, now))
    ensures |history| > 0 ==> forall k :: 0 <= k < |Live(history, ttl, now)| ==>
      Live(history, ttl, now)[k].expires <= history[|history|-1].now + ttl
  {
    if |history| > 0 {
      var front := history[..|history|-1];
      LiveIsSorted(front, ttl, now);
      if |front| > 0 { assert front[|front|-1] == history[|front|-1]; }
    }
  }

  lemma LiveMore(history: seq<Check>, c: Check, ttl: int, now: int)
    ensures Live(history + [c], ttl, now) ==
      if c.accepted && c.now + ttl > now then Live(history, ttl, now) + [Entry(c.sig, c.now + ttl)]
        else Live(history, ttl, now)
  {
    assert (history + [c])[..|history|] == history;
  }

  class Cache {
    const ttlMs: int
    const max: nat
    /** Signatures with their expiry, in insertion order. */
    var seen: seq<Entry>

    ghost var history: seq<Check>

    /** From the last check on, sweeping the cache at any instant leaves what is live then. */
    ghost predicate Valid()
      reads this
    {
      && Nondecreasing(history) && Faithful(history, ttlMs, max)
      && Tracks(seen, history, ttlMs)
    }

    constructor (ttlMs: int, max: nat)
      ensures Valid() && this.ttlMs == ttlMs && this.max == max && history == []
    {
      this.ttlMs, this.max, seen, history := ttlMs, max, [], [];
    }

    /** Under a clock that does not go back, the answer is the rule's. */
    method Accepts(sig: string, now: int) returns (ok: bool)
      requires Valid() && (|history| > 0 ==> history[|history|-1].now <= now)
      modifies this
      ensures Valid() && history == old(history) + [Check(sig, now, ok)]
      ensures ok <==> Fresh(old(history), ttlMs, max, sig, now)
    {
      hide Tracks, Live, Unexpired, Holds, Sorted, Faithful, Nondecreasing;
      TracksNow(seen, history, ttlMs, now);
      seen := Sweep(seen, now);
      assert seen == Live(history, ttlMs, now);
      ok := false;
      if Holds(seen, sig) {
      } else if |seen| >= max {
      } else {
        seen := seen + [Entry(sig, now + ttlMs)];
        ok := true;
      }
      TracksMore(history, Check(sig, now, ok), ttlMs);
      HistoryMore(history, Check(sig, now, ok), ttlMs, max);
      history := history + [Check(sig, now, ok)];
    }
  }

  ghost predicate Tracks(seen: seq<Entry>, history: seq<Check>, ttl: int) {
    && Sorted(seen)
    && if |history| == 0 then seen == []
       else
         && (forall k :: 0 <= k < |seen| ==> seen[k].expires <= history[|history|-1].now + ttl)
         && forall t :: t >= history[|history|-1].now ==> Unexpired(seen, t) == Live(history, ttl, t)
  }

  lemma TracksNow(seen: seq<Entry>, history: seq<Check>, ttl: int, now: int)
    requires Tracks(seen, history, ttl) && (|history| > 0 ==> history[|history|-1].now <= now)
    ensures Sorted(seen) && Unexpired(seen, now) == Live(history, ttl, now)
  {
  }

  lemma TracksMore(history: seq<Check>, c: Check, ttl: int)
    requires Nondecreasing(history) && (|history| > 0 ==> history[|history|-1].now <= c.now)
    ensures var live := Live(history, ttl, c.now);
      Tracks(if c.accepted then live + [Entry(c.sig, c.now + ttl)] else live, history + [c], ttl)
  {
    var live := Live(history, ttl, c.now);
    LiveIsSorted(history, ttl, c.now);
    var more := history + [c];
    assert more[|more|-1] == c;
    forall t | t >= c.now
      ensures Unexpired(if c.accepted then live + [Entry(c.sig, c.now + ttl)] else live, t) == Live(more, ttl, t)
    {
      SweepOfLive(history, ttl, c.now, t);
      UnexpiredAppend(live, Entry(c.sig, c.now + ttl), t);
      LiveMore(history, c, ttl, t);
    }
  }

  lemma HistoryMore(history: seq<Check>, c: Check, ttl: int, max: nat)
    requires Nondecreasing(history) && Faithful(history, ttl, max)
    requires (|history| > 0 ==> history[|history|-1].now <= c.now)
      && (c.accepted <==> Fresh(history, ttl, max, c.sig, c.now))
    ensures Nondecreasing(history + [c]) && Faithful(history + [c], ttl, max)
  {
    hide Fresh;
    var more := history + [c];
    forall k | 0 <= k < |more| ensures more[k].accepted <==> Fresh(more[..k], ttl, max, more[k].sig, more[k].now) {
      if k < |history| { assert more[..k] == history[..k]; } else { assert more[..k] == history; }
    }
  }

  // ---------------------------------------------------------------- replays

  lemma {:induction false} AcceptedIsLive(history: seq<Check>, ttl: int, i: nat, now: int)
    requires i < |history| && history[i].accepted && history[i].now + ttl > now
    ensures Holds(Live(history, ttl, now), history[i].sig)
  {
    var front := history[..|history|-1];
    var live := Live(history, ttl, now);
    if i == |history| - 1 {
      assert live[|live|-1].sig == history[i].sig;
    } else {
      AcceptedIsLive(front, ttl, i, now);
      var k :| 0 <= k < |Live(front, ttl, now)| && Live(front, ttl, now)[k].sig == history[i].sig;
      assert live[k].sig == history[i].sig;
    }
  }

  /** What is live is what was accepted and is still inside its time to live. */
  lemma {:induction false} HoldsExactly(history: seq<Check>, ttl: int, now: int, sig: string)
    ensures Holds(Live(history, ttl, now), sig) <==>
      exists i :: 0 <= i < |history| && history[i].accepted && history[i].sig == sig && history[i].now + ttl > now
  {
    if i :| 0 <= i < |history| && history[i].accepted && history[i].sig == sig && history[i].now + ttl > now {
      AcceptedIsLive(history, ttl, i, now);
    }
    if |history| > 0 && Holds(Live(history, ttl, now), sig) {
      var front := history[..|history|-1];
      HoldsExactly(front, ttl, now, sig);
      var live := Live(history, ttl, now);
      var k :| 0 <= k < |live| && live[k].sig == sig;
      if k < |Live(front, ttl, now)| { assert Live(front, ttl, now)[k].sig == sig; }
    }
  }

  /** How many acceptances are inside their time to live. */
  lemma {:induction false} LiveCounts(history: seq<Check>, ttl: int, now: int)
    ensures |Live(history, ttl, now)| == |set i | 0 <= i < |history| && IsLive(history, ttl, now, i)|
  {
    if |history| > 0 {
      var front, c := history[..|history|-1], history[|history|-1];
      LiveCounts(front, ttl, now);
      assert history == front + [c];
      LiveMore(front, c, ttl, now);
      LiveSetMore(front, c, ttl, now);
      hide Live;
    }
  }

  lemma LiveSetMore(front: seq<Check>, c: Check, ttl: int, now: int)
    ensures var h := front + [c];
      (set i | 0 <= i < |h| && IsLive(h, ttl, now, i)) ==
        (set i | 0 <= i < |front| && IsLive(front, ttl, now, i))
        + (if c.accepted && c.now + ttl > now then {|front|} else {})
  {
  }

  predicate IsLive(history: seq<Check>, ttl: int, now: int, i: int)
    requires 0 <= i < |history|
  {
    history[i].accepted && history[i].now + ttl > now
  }

  /** Two acceptances of one signature are at least the time to live apart. */
  lemma AcceptancesAreApart(history: seq<Check>, ttl: int, max: nat, i: nat, j: nat)
    requires Faithful(history, ttl, max) && i < j < |history|
    requires history[i].accepted && history[j].accepted && history[i].sig == history[j].sig
    ensures history[j].now >= history[i].now + ttl
  {
    if history[i].now + ttl > history[j].now {
      AcceptedIsLive(history[..j], ttl, i, history[j].now);
    }
  }

  /** The timestamp window of a signed request, in exact arithmetic. */
  predicate InWindow(ts: real, now: int) {
    var d := now as real - ts * 1000.0;
    -(SIGNATURE_WINDOW_MS as real) <= d <= SIGNATURE_WINDOW_MS as real
  }

  lemma InWindowIs(ts: real, now: int)
    ensures InWindow(ts, now) <==> -300000.0 <= now as real - 1000.0 * ts <= 300000.0
  {
  }

  /** A signature dated strictly before its first acceptance is never accepted twice, when the
      window and the cache read one clock and the cache keeps entries for the window. */
  lemma NoReplay(history: seq<Check>, max: nat, i: nat, j: nat, ts: real)
    requires Faithful(history, SIGNATURE_WINDOW_MS, max) && i < j < |history|
    requires history[i].sig == history[j].sig && history[i].accepted
    requires InWindow(ts, history[j].now) && ts * 1000.0 < history[i].now as real
    ensures !history[j].accepted
  {
    if history[j].accepted { AcceptancesAreApart(history, SIGNATURE_WINDOW_MS, max, i, j); }
  }

  /** The signature, dated `ts`, is accepted at `first` and again later, both times in its window. */
  ghost predicate Replayed(history: seq<Check>, sig: string, ts: real, first: int) {
    exists i, j :: 0 <= i < j < |history| && IsReplay(history, sig, ts, first, i, j)
  }

  ghost predicate IsReplay(history: seq<Check>, sig: string, ts: real, first: int, i: nat, j: nat)
    requires i < j < |history|
  {
    && history[i] == Check(sig, first, true) && InWindow(ts, first)
    && history[j].sig == sig && history[j].accepted && InWindow(ts, history[j].now)
  }

  /** Histories a cache of the window's length can have, under a clock that does not go back. */
  ghost predicate Possible(history: seq<Check>, max: nat) {
    Faithful(history, SIGNATURE_WINDOW_MS, max) && Nondecreasing(history)
  }

  /** Some history accepts the signature twice exactly when the cache can hold anything and the
      signature is dated, within its window, at or after its first acceptance. */
  lemma ReplayExactly(sig: string, ts: real, first: int, max: nat)
    ensures (exists history :: Possible(history, max) && Replayed(history, sig, ts, first)) <==>
      max > 0 && InWindow(ts, first) && ts * 1000.0 >= first as real
  {
    if max > 0 && InWindow(ts, first) && ts * 1000.0 >= first as real {
      TwiceIsPossible(sig, first, max);
      var twice := Twice(sig, first);
      assert IsReplay(twice, sig, ts, first, 0, 1);
    }
    if history :| Possible(history, max) && Replayed(history, sig, ts, first) {
      var i, j :| 0 <= i < j < |history| && IsReplay(history, sig, ts, first, i, j);
      hide Faithful, Nondecreasing, Fresh;
      if ts * 1000.0 < first as real { NoReplay(history, max, i, j, ts); }
      AcceptingNeedsRoom(history, max, i);
    }
  }

  function Twice(sig: string, first: int): seq<Check> {
    [Check(sig, first, true), Check(sig, first + SIGNATURE_WINDOW_MS, true)]
  }

  lemma TwiceIsPossible(sig: string, first: int, max: nat)
    requires max > 0
    ensures Possible(Twice(sig, first), max)
  {
    var history, once := Twice(sig, first), [Check(sig, first, true)];
    assert history[..0] == [] && history[..1] == once && once[..0] == [];
    assert Live(once, SIGNATURE_WINDOW_MS, first + SIGNATURE_WINDOW_MS) == [];
    assert Fresh(history[..0], SIGNATURE_WINDOW_MS, max, sig, first);
    assert Fresh(history[..1], SIGNATURE_WINDOW_MS, max, sig, first + SIGNATURE_WINDOW_MS);
  }

  lemma AcceptingNeedsRoom(history: seq<Check>, max: nat, i: nat)
    requires Possible(history, max) && i < |history| && history[i].accepted
    ensures max > 0
  {
  }
}
