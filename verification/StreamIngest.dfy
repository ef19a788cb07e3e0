/** Stream ingress: dedupe, debounce, a bounded number in flight, and one intent per event id. */
module StreamIngest {
  import opened Wrappers
  import opened NonceCache
  import I = IntentRecords

  /** A parsed event; whether its signature matches is decided by the MAC. `proposal` is the body it
      turns into, keyed by the event id. */
  datatype Envelope = Envelope(
    eventId: string, ts: int, signed: bool, contentHash: string, detector: string,
    camera: Maybe<string>, class': Maybe<string>, proposal: I.Proposal)

  datatype Outcome =
    | Rejected
    | Duplicate
    | Debounced(dIntentId: string, occurrences: nat)
    | Shed
    | Accepted(intentId: string)

  /** The last accepted event of a debounce key. */
  datatype Last = Last(at: int, intentId: string, occurrences: nat)

  /** One accepted event, for the record. */
  datatype Accept = Accept(eventId: string, key: string, at: int, intentId: string)

  /** The latest instant an event got past the signature test. */
  datatype Clock = Never | At(now: int)

  function DebounceKey(e: Envelope): string {
    e.detector + "|" + (if e.camera.Some? then e.camera.value else "-")
    + "|" + (if e.class'.Some? then e.class'.value else "-")
  }

  /** What the key shows of a field that may be missing. */
  function Shown(m: Maybe<string>): string {
    if m.Some? then m.value else "-"
  }

  lemma SplitAtBar(a: string, x: string, b: string, y: string)
    requires '|' !in a && '|' !in b
    ensures a + "|" + x == b + "|" + y <==> a == b && x == y
  {
    var s, t := a + "|" + x, b + "|" + y;
    assert s[|a|] == '|' && t[|b|] == '|' && s[..|a|] == a && t[..|b|] == b;
    assert s[|a| + 1..] == x && t[|b| + 1..] == y;
    assert forall i :: 0 <= i < |a| ==> s[i] == a[i];
    assert forall i :: 0 <= i < |b| ==> t[i] == b[i];
  }

  /** With no bar in detector and camera, two events share a debounce key exactly when they show the
      same detector, camera and class. */
  lemma DebounceKeyIs(e: Envelope, f: Envelope)
    requires '|' !in e.detector && '|' !in f.detector && '|' !in Shown(e.camera) && '|' !in Shown(f.camera)
    ensures DebounceKey(e) == DebounceKey(f) <==>
      e.detector == f.detector && Shown(e.camera) == Shown(f.camera) && Shown(e.class') == Shown(f.class')
  {
    var x, y := Shown(e.camera) + "|" + Shown(e.class'), Shown(f.camera) + "|" + Shown(f.class');
    assert DebounceKey(e) == e.detector + "|" + x && DebounceKey(f) == f.detector + "|" + y;
    hide DebounceKey;
    SplitAtBar(e.detector, x, f.detector, y);
    SplitAtBar(Shown(e.camera), Shown(e.class'), Shown(f.camera), Shown(f.class'));
  }

  /** With a bar they may share it though they differ: a bar moves freely between detector and camera. */
  lemma BarMovesBetweenFields(e: Envelope, f: Envelope, a: string, b: string, c: string)
    requires e.detector == a + "|" + b && e.camera == Some(c) && f.detector == a && f.camera == Some(b + "|" + c)
    requires Shown(e.class') == Shown(f.class')
    ensures DebounceKey(e) == DebounceKey(f) && e.detector != f.detector
  {
    assert DebounceKey(e) == a + "|" + b + "|" + c + "|" + Shown(e.class');
    assert DebounceKey(f) == a + "|" + (b + "|" + c) + "|" + Shown(f.class');
    assert |e.detector| > |f.detector|;
  }

  /** The window of the time stamp is five minutes either way, the bounds included. */
  lemma PassesIs(e: Envelope, now: int)
    ensures Passes(e, now) <==> e.signed && -300000 <= now - 1000 * e.ts <= 300000
  {
  }

  // ---------------------------------------------------------------- what holds of the accepted events

  /** Two accepted events of one key are at least the debounce interval apart. */
  ghost predicate Spaced(accepted: seq<Accept>, debounceMs: int) {
    forall i, j :: 0 <= i < j < |accepted| && accepted[i].key == accepted[j].key ==>
      accepted[j].at - accepted[i].at >= debounceMs
  }

  /** `lastByKey` remembers the latest accepted event of every key. */
  ghost predicate Remembers(lastByKey: map<string, Last>, accepted: seq<Accept>) {
    forall i :: 0 <= i < |accepted| ==> accepted[i].key in lastByKey && accepted[i].at <= lastByKey[accepted[i].key].at
  }

  /** An event id stands for one intent, now and for every acceptance of it so far. */
  ghost predicate OneIntent(byIdemKey: map<string, string>, accepted: seq<Accept>) {
    forall i :: 0 <= i < |accepted| ==>
      accepted[i].eventId in byIdemKey && byIdemKey[accepted[i].eventId] == accepted[i].intentId
  }

  ghost predicate Expiries(entries: seq<Entry>, limit: int) {
    Sorted(entries) && forall k :: 0 <= k < |entries| ==> entries[k].expires <= limit
  }

  /** Past the timestamp window and the signature. */
  predicate Passes(e: Envelope, now: int) {
    e.signed && -SIGNATURE_WINDOW_MS <= now - e.ts * 1000 <= SIGNATURE_WINDOW_MS
  }

  /** Remembered and not yet expired. */
  ghost predicate LiveAt(entries: seq<Entry>, sig: string, now: int) {
    exists k :: 0 <= k < |entries| && entries[k].sig == sig && entries[k].expires > now
  }

  ghost predicate Within(lastByKey: map<string, Last>, key: string, now: int, debounceMs: int) {
    key in lastByKey && now - lastByKey[key].at < debounceMs
  }

  function EventsAfter(r: Outcome, swept: seq<Entry>, e: Entry, dedupeMax: nat): seq<Entry> {
    match r
    case Debounced(_, _) => swept + [e]
    case Accepted(_) => if |swept| + 1 > dedupeMax then (swept + [e])[1..] else swept + [e]
    case _ => swept
  }

  /** A debounced or accepted event is remembered behind the others; an accept over the cap forgets
      the oldest one, and nothing else is forgotten. */
  lemma OldestIsForgotten(r: Outcome, swept: seq<Entry>, e: Entry, dedupeMax: nat)
    ensures var after := EventsAfter(r, swept, e, dedupeMax);
      if !r.Debounced? && !r.Accepted? then after == swept
      else if r.Debounced? || |swept| < dedupeMax then
        |after| == |swept| + 1 && after[|swept|] == e && after[..|swept|] == swept
      else if |swept| == 0 then after == []
      else [swept[0]] + after == swept + [e]
  {
  }

  lemma ExpiriesMore(entries: seq<Entry>, e: Entry)
    requires Expiries(entries, e.expires)
    ensures Expiries(entries + [e], e.expires)
  {
  }

  lemma EvictionKeeps(entries: seq<Entry>, limit: int)
    ensures |entries| > 0 && Expiries(entries, limit) ==> Expiries(entries[1..], limit)
  {
  }

  lemma {:induction false} UnexpiredWithin(entries: seq<Entry>, now: int, limit: int)
    requires Expiries(entries, limit)
    ensures Expiries(Unexpired(entries, now), limit)
  {
    if |entries| > 0 {
      UnexpiredWithin(entries[1..], now, limit);
      if entries[0].expires > now { NothingExpired(entries, now); }
    }
  }

  ghost predicate WellKept(entries: seq<Entry>, clock: Clock, ttl: int) {
    if clock.Never? then entries == [] else Expiries(entries, clock.now + ttl)
  }

  lemma Swept(entries: seq<Entry>, clock: Clock, now: int, ttl: int)
    requires WellKept(entries, clock, ttl) && (clock.At? ==> clock.now <= now)
    ensures Sorted(entries) && Expiries(Unexpired(entries, now), now + ttl)
  {
    assert Expiries(entries, now + ttl);
    UnexpiredWithin(entries, now, now + ttl);
  }

  /** What the sweep leaves is what has not expired. */
  lemma {:induction false} LiveAtSweep(entries: seq<Entry>, sig: string, now: int)
    ensures Holds(Unexpired(entries, now), sig) <==> LiveAt(entries, sig, now)
  {
    if |entries| > 0 {
      var rest := entries[1..];
      LiveAtSweep(rest, sig, now);
      var swept := Unexpired(rest, now);
      if Holds(Unexpired(entries, now), sig) {
        var k :| 0 <= k < |Unexpired(entries, now)| && Unexpired(entries, now)[k].sig == sig;
        if entries[0].expires > now && k > 0 { assert swept[k - 1].sig == sig; }
        if Holds(swept, sig) {
          var j :| 0 <= j < |rest| && rest[j].sig == sig && rest[j].expires > now;
          assert entries[j + 1].sig == sig;
        }
      }
      if LiveAt(entries, sig, now) {
        var j :| 0 <= j < |entries| && entries[j].sig == sig && entries[j].expires > now;
        if j > 0 {
          assert rest[j - 1].sig == sig;
          var k :| 0 <= k < |swept| && swept[k].sig == sig;
          assert Unexpired(entries, now)[if entries[0].expires <= now then k else k + 1].sig == sig;
        } else {
          assert Unexpired(entries, now)[0].sig == sig;
        }
      }
    }
  }

  lemma CountingKeepsMemory(lastByKey: map<string, Last>, accepted: seq<Accept>, key: string, n: nat)
    requires Remembers(lastByKey, accepted) && key in lastByKey
    ensures Remembers(lastByKey[key := lastByKey[key].(occurrences := n)], accepted)
  {
  }

  lemma AcceptKeeps(lastByKey: map<string, Last>, accepted: seq<Accept>, intents: I.Store, e: Envelope,
                    caller: I.Caller, now: int, freshId: string, debounceMs: int)
    requires Spaced(accepted, debounceMs) && Remembers(lastByKey, accepted) && OneIntent(intents.byIdemKey, accepted)
    requires !Within(lastByKey, DebounceKey(e), now, debounceMs)
      && (forall k :: k in lastByKey ==> lastByKey[k].at <= now)
    requires e.eventId != "" && e.proposal.idempotencyKey == e.eventId
    ensures var (after, id, _) := I.ProposeStep(intents, e.proposal, caller, freshId);
      var more := accepted + [Accept(e.eventId, DebounceKey(e), now, id)];
      && Spaced(more, debounceMs) && Remembers(lastByKey[DebounceKey(e) := Last(now, id, 1)], more)
      && OneIntent(after.byIdemKey, more)
  {
    hide DebounceKey, Spaced, Remembers;
    var (after, id, _) := I.ProposeStep(intents, e.proposal, caller, freshId);
    var a := Accept(e.eventId, DebounceKey(e), now, id);
    SpacedMore(accepted, a, lastByKey, debounceMs);
    RemembersMore(lastByKey, accepted, a, now);
  }

  lemma SpacedMore(accepted: seq<Accept>, a: Accept, lastByKey: map<string, Last>, debounceMs: int)
    requires Spaced(accepted, debounceMs) && Remembers(lastByKey, accepted)
    requires a.key in lastByKey ==> a.at - lastByKey[a.key].at >= debounceMs
    ensures Spaced(accepted + [a], debounceMs)
  {
    var more := accepted + [a];
    forall i, j | 0 <= i < j < |more| && more[i].key == more[j].key ensures more[j].at - more[i].at >= debounceMs {
      if j == |accepted| { assert accepted[i].at <= lastByKey[accepted[i].key].at; }
    }
  }

  lemma RemembersMore(lastByKey: map<string, Last>, accepted: seq<Accept>, a: Accept, now: int)
    requires Remembers(lastByKey, accepted) && a.at == now && (a.key in lastByKey ==> lastByKey[a.key].at <= now)
    ensures Remembers(lastByKey[a.key := Last(now, a.intentId, 1)], accepted + [a])
  {
  }

  class Ingest {
    const debounceMs: int
    const dedupeMax: nat
    const maxInFlight: nat
    var seenEvents: seq<Entry>
    var seenContent: seq<Entry>
    var lastByKey: map<string, Last>
    var inFlight: nat
    /** The intent store the stream shares with every other door. */
    var intents: I.Store

    ghost var accepted: seq<Accept>
    ghost var released: nat
    ghost var clock: Clock

    ghost predicate Valid()
      reads this
    {
      && Spaced(accepted, debounceMs) && Remembers(lastByKey, accepted)
      && OneIntent(intents.byIdemKey, accepted)
      && |accepted| == inFlight + released && inFlight <= maxInFlight
      && WellKept(seenEvents, clock, SIGNATURE_WINDOW_MS) && WellKept(seenContent, clock, debounceMs)
      && (if clock == Never then lastByKey == map[] else forall k :: k in lastByKey ==> lastByKey[k].at <= clock.now)
    }

    constructor (debounceMs: int, dedupeMax: nat, maxInFlight: nat, intents: I.Store)
      ensures Valid() && accepted == [] && released == 0 && inFlight == 0 && clock == Never
      ensures this.debounceMs == debounceMs && this.dedupeMax == dedupeMax && this.maxInFlight == maxInFlight
        && this.intents == intents
    {
      this.debounceMs, this.dedupeMax, this.maxInFlight, this.intents := debounceMs, dedupeMax, maxInFlight, intents;
      seenEvents, seenContent, lastByKey, inFlight := [], [], map[], 0;
      accepted, released, clock := [], 0, Never;
    }

    /** A worker is done; a release with nothing in flight does nothing. */
    method Release()
      requires Valid()
      modifies `inFlight, `released
      ensures Valid() && inFlight == (if old(inFlight) > 0 then old(inFlight) - 1 else 0)
      ensures released == old(released) + (if old(inFlight) > 0 then 1 else 0)
    {
      if inFlight > 0 {
        inFlight := inFlight - 1;
        released := released + 1;
      }
    }

    /** What happens to an event that is no duplicate, once the expired records are gone. */
    method Place(e: Envelope, caller: I.Caller, now: int, freshId: string) returns (r: Outcome)
      requires Valid() && clock == At(now)
      requires e.eventId != "" && e.proposal.idempotencyKey == e.eventId
      modifies this
      ensures Valid() && clock == At(now) && (r.Debounced? || r.Shed? || r.Accepted?)
      ensures r.Debounced? <==> Within(old(lastByKey), DebounceKey(e), now, debounceMs)
      ensures r.Shed? <==> !Within(old(lastByKey), DebounceKey(e), now, debounceMs) && old(inFlight) == maxInFlight
      ensures r.Debounced? ==>
        && Within(old(lastByKey), DebounceKey(e), now, debounceMs)
        && r == Debounced(old(lastByKey)[DebounceKey(e)].intentId, old(lastByKey)[DebounceKey(e)].occurrences + 1)
        && lastByKey == old(lastByKey)[DebounceKey(e) := old(lastByKey)[DebounceKey(e)].(occurrences := r.occurrences)]
      ensures r.Shed? ==>
        && inFlight == maxInFlight && !Within(old(lastByKey), DebounceKey(e), now, debounceMs)
        && lastByKey == old(lastByKey)
      ensures r.Accepted? ==>
        && intents == I.ProposeStep(old(intents), e.proposal, caller, freshId).0
        && r.intentId == I.ProposeStep(old(intents), e.proposal, caller, freshId).1
        && inFlight == old(inFlight) + 1
        && accepted == old(accepted) + [Accept(e.eventId, DebounceKey(e), now, r.intentId)]
        && !Within(old(lastByKey), DebounceKey(e), now, debounceMs)
        && lastByKey == old(lastByKey)[DebounceKey(e) := Last(now, r.intentId, 1)]
      ensures !r.Accepted? ==> accepted == old(accepted) && inFlight == old(inFlight) && intents == old(intents)
      ensures released == old(released)
      ensures seenEvents == EventsAfter(r, old(seenEvents), Entry(e.eventId, now + SIGNATURE_WINDOW_MS), dedupeMax)
      ensures seenContent == old(seenContent) + (if r.Accepted? then [Entry(e.contentHash, now + debounceMs)] else [])
    {
      hide DebounceKey, Spaced, Remembers, OneIntent, Expiries, Unexpired, Holds, Sorted, LiveAt, Passes, I.ProposeStep;
      var key := DebounceKey(e);
      ExpiriesMore(seenEvents, Entry(e.eventId, now + SIGNATURE_WINDOW_MS));
      if key in lastByKey && now - lastByKey[key].at < debounceMs {
        var prior := lastByKey[key];
        CountingKeepsMemory(lastByKey, accepted, key, prior.occurrences + 1);
        lastByKey := lastByKey[key := prior.(occurrences := prior.occurrences + 1)];
        seenEvents := seenEvents + [Entry(e.eventId, now + SIGNATURE_WINDOW_MS)];
        return Debounced(prior.intentId, prior.occurrences + 1);
      }
      if inFlight >= maxInFlight { return Shed; }
      ExpiriesMore(seenContent, Entry(e.contentHash, now + debounceMs));
      EvictionKeeps(seenEvents + [Entry(e.eventId, now + SIGNATURE_WINDOW_MS)], now + SIGNATURE_WINDOW_MS);
      seenEvents := seenEvents + [Entry(e.eventId, now + SIGNATURE_WINDOW_MS)];
      seenContent := seenContent + [Entry(e.contentHash, now + debounceMs)];
      if |seenEvents| > dedupeMax { seenEvents := seenEvents[1..]; }
      var (after, id, _) := I.ProposeStep(intents, e.proposal, caller, freshId);
      AcceptKeeps(lastByKey, accepted, intents, e, caller, now, freshId, debounceMs);
      intents := after;
      inFlight := inFlight + 1;
      lastByKey := lastByKey[key := Last(now, id, 1)];
      accepted := accepted + [Accept(e.eventId, key, now, id)];
      r := Accepted(id);
    }

    /** One event under a clock that does not go back. Accepted events of a key keep their
        distance, the cap holds, and an id that was accepted before gets its old intent even when
        its dedupe record has expired or been evicted. */
    method Receive(e: Envelope, caller: I.Caller, now: int, freshId: string) returns (r: Outcome)
      requires Valid() && (clock.At? ==> clock.now <= now)
      requires e.eventId != "" && e.proposal.idempotencyKey == e.eventId
      modifies this
      ensures Valid() && released == old(released)
      ensures r.Rejected? <==> !Passes(e, now)
      ensures !r.Rejected? ==> clock == At(now)
      ensures r.Rejected? ==> seenEvents == old(seenEvents) && seenContent == old(seenContent) && clock == old(clock)
      ensures r.Duplicate? <==>
        && Passes(e, now)
        && (LiveAt(old(seenEvents), e.eventId, now) || LiveAt(old(seenContent), e.contentHash, now))
      ensures r.Debounced? ==>
        && Within(old(lastByKey), DebounceKey(e), now, debounceMs)
        && r == Debounced(old(lastByKey)[DebounceKey(e)].intentId, old(lastByKey)[DebounceKey(e)].occurrences + 1)
        && lastByKey == old(lastByKey)[DebounceKey(e) := old(lastByKey)[DebounceKey(e)].(occurrences := r.occurrences)]
      ensures Passes(e, now) && !r.Duplicate? ==>
        && (r.Debounced? <==> Within(old(lastByKey), DebounceKey(e), now, debounceMs))
        && (r.Shed? <==> !Within(old(lastByKey), DebounceKey(e), now, debounceMs) && old(inFlight) == maxInFlight)
      ensures r.Accepted? ==>
        && intents == I.ProposeStep(old(intents), e.proposal, caller, freshId).0
        && r.intentId == I.ProposeStep(old(intents), e.proposal, caller, freshId).1
        && inFlight == old(inFlight) + 1
        && accepted == old(accepted) + [Accept(e.eventId, DebounceKey(e), now, r.intentId)]
        && !Within(old(lastByKey), DebounceKey(e), now, debounceMs)
        && lastByKey == old(lastByKey)[DebounceKey(e) := Last(now, r.intentId, 1)]
      ensures !r.Accepted? ==> accepted == old(accepted) && inFlight == old(inFlight) && intents == old(intents)
      ensures !r.Accepted? && !r.Debounced? ==> lastByKey == old(lastByKey)
      ensures !r.Rejected? ==>
        && seenEvents == EventsAfter(r, Unexpired(old(seenEvents), now),
                                     Entry(e.eventId, now + SIGNATURE_WINDOW_MS), dedupeMax)
        && seenContent == Unexpired(old(seenContent), now)
                          + (if r.Accepted? then [Entry(e.contentHash, now + debounceMs)] else [])
    {
      hide DebounceKey, Spaced, Remembers, OneIntent, Expiries, Sorted, Unexpired, Holds, LiveAt, I.ProposeStep;
      if now - e.ts * 1000 > SIGNATURE_WINDOW_MS || e.ts * 1000 - now > SIGNATURE_WINDOW_MS { return Rejected; }
      if !e.signed { return Rejected; }
      Swept(seenEvents, clock, now, SIGNATURE_WINDOW_MS);
      Swept(seenContent, clock, now, debounceMs);
      LiveAtSweep(seenEvents, e.eventId, now);
      LiveAtSweep(seenContent, e.contentHash, now);
      seenEvents := Sweep(seenEvents, now);
      seenContent := Sweep(seenContent, now);
      clock := At(now);
      if Holds(seenEvents, e.eventId) { return Duplicate; }
      if Holds(seenContent, e.contentHash) { return Duplicate; }
      r := Place(e, caller, now, freshId);
    }

    /** Any other use of the shared store in between. */
    method Elsewhere(single: bool, op: I.Op)
      requires Valid()
      modifies `intents
      ensures Valid() && intents == I.Step(single, old(intents), op)
    {
      KeysStay(single, intents, op);
      hide Spaced, Remembers, Expiries;
      intents := I.Step(single, intents, op);
    }
  }

  /** No store operation ever moves an idempotency key to another intent. */
  lemma KeysStay(single: bool, s: I.Store, op: I.Op)
    ensures forall k :: k in s.byIdemKey ==>
      k in I.Step(single, s, op).byIdemKey && I.Step(single, s, op).byIdemKey[k] == s.byIdemKey[k]
  {
  }
}
