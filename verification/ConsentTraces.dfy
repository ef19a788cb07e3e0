/** The joint trace of calls that overlap at will: every consequential execution in it had its
    consent, and every delta its revert. */
module ConsentTraces {
  import opened Wrappers
  import opened Taxonomy
  import opened IntentRecords
  import opened Broker
  import opened ConsentSafety
  import opened ConsentRuns

  // ---------------------------------------------------------------- one call's share of the trace

  /** The events of call `c`, in order. */
  function Of(trace: seq<Tagged>, c: nat): seq<Event> {
    if |trace| == 0 then []
    else
      var front, t := Of(trace[..|trace|-1], c), trace[|trace|-1];
      if t.call == c then front + [t.event] else front
  }

  lemma OfMore(trace: seq<Tagged>, t: Tagged, c: nat)
    ensures Of(trace + [t], c) == if t.call == c then Of(trace, c) + [t.event] else Of(trace, c)
  {
    assert (trace + [t])[..|trace|] == trace;
  }

  /** What stands before position `k` is a prefix of the call's share, shorter when `k` is its own. */
  lemma {:induction false} OfTake(trace: seq<Tagged>, c: nat, k: nat)
    requires k <= |trace|
    ensures Of(trace[..k], c) <= Of(trace, c)
    ensures k < |trace| && trace[k].call == c ==>
      |Of(trace[..k], c)| < |Of(trace, c)| && Of(trace, c)[|Of(trace[..k], c)|] == trace[k].event
  {
    if k == |trace| {
      assert trace[..k] == trace;
    } else {
      var front := trace[..|trace|-1];
      OfTake(front, c, k);
      assert front[..k] == trace[..k];
    }
  }

  /** Where the `m`-th event of the call stands. */
  lemma {:induction false} PositionOf(trace: seq<Tagged>, c: nat, m: nat) returns (i: nat)
    requires m < |Of(trace, c)|
    ensures i < |trace| && trace[i] == Tagged(c, Of(trace, c)[m]) && |Of(trace[..i], c)| == m
  {
    var front := trace[..|trace|-1];
    if m < |Of(front, c)| {
      i := PositionOf(front, c, m);
      assert front[..i] == trace[..i];
    } else {
      i := |trace| - 1;
    }
  }

  lemma OfGrows(trace: seq<Tagged>, c: nat, i: nat, k: nat)
    requires i <= k <= |trace|
    ensures |Of(trace[..i], c)| <= |Of(trace[..k], c)|
    ensures i < k && trace[i].call == c ==> |Of(trace[..i], c)| < |Of(trace[..k], c)|
  {
    assert trace[..k][..i] == trace[..i];
    OfTake(trace[..k], c, i);
  }

  // ---------------------------------------------------------------- every call does what its call says

  function EventsOf(r: Running): seq<Event> {
    Authorized(r.a, DecisionAt(r.at, r.from), r.now, r.w).events
  }

  ghost predicate CallKept(y: Sys, c: nat)
    requires c < |y.calls|
  {
    Of(y.trace, c) + y.calls[c].todo == EventsOf(y.calls[c])
  }

  /** Done and left to do together are the events of the call; nothing in the trace is nobody's. */
  ghost predicate Kept(y: Sys) {
    && (forall c :: 0 <= c < |y.calls| ==> CallKept(y, c))
    && (forall k :: 0 <= k < |y.trace| ==> y.trace[k].call < |y.calls|)
  }

  lemma {:induction false} NothingOf(trace: seq<Tagged>, c: nat)
    requires forall k :: 0 <= k < |trace| ==> trace[k].call < c
    ensures Of(trace, c) == []
  {
    if |trace| > 0 { NothingOf(trace[..|trace|-1], c); }
  }

  lemma StartKeeps(y: Sys, r: Running)
    requires Kept(y) && r.todo == EventsOf(r)
    ensures Kept(y.(calls := y.calls + [r]))
  {
    hide EventsOf;
    var z := y.(calls := y.calls + [r]);
    forall c | 0 <= c < |z.calls| ensures CallKept(z, c) {
      if c < |y.calls| {
        assert CallKept(y, c);
      } else {
        NothingOf(y.trace, c);
        assert [] + r.todo == r.todo;
      }
    }
  }

  lemma ResumeKeeps(y: Sys, n: nat)
    requires Kept(y) && n < |y.calls| && y.calls[n].todo != []
    ensures var r := y.calls[n];
      Kept(y.(calls := y.calls[n := r.(todo := r.todo[1..])], trace := y.trace + [Tagged(n, r.todo[0])]))
  {
    hide Of, Authorized;
    var r := y.calls[n];
    var z := y.(calls := y.calls[n := r.(todo := r.todo[1..])], trace := y.trace + [Tagged(n, r.todo[0])]);
    forall c | 0 <= c < |z.calls| ensures CallKept(z, c) {
      assert CallKept(y, c);
      OfMore(y.trace, Tagged(n, r.todo[0]), c);
      if c == n { assert (Of(y.trace, n) + [r.todo[0]]) + r.todo[1..] == Of(y.trace, n) + r.todo; }
    }
  }

  lemma {:induction false} RunKept(single: bool, ops: seq<SysOp>)
    ensures Kept(SysRun(single, ops))
  {
    if |ops| > 0 {
      var y, op := SysRun(single, ops[..|ops|-1]), ops[|ops|-1];
      RunKept(single, ops[..|ops|-1]);
      match op
      case OnStore(o) =>
        forall c | 0 <= c < |y.calls| ensures CallKept(SysRun(single, ops), c) { assert CallKept(y, c); }
      case Start(a, from, now, w) =>
        StartKeeps(y, Running(a, from, now, w, y.store, Authorized(a, DecisionAt(y.store, from), now, w).events));
      case Resume(c) =>
        if c < |y.calls| && y.calls[c].todo != [] { ResumeKeeps(y, c); }
    }
  }

  /** The call was made by step `n` of the run, on the store as it then was. */
  ghost predicate MadeAt(single: bool, ops: seq<SysOp>, r: Running, n: nat) {
    n < |ops| && ops[n] == Start(r.a, r.from, r.now, r.w) && r.at == SysRun(single, ops[..n]).store
  }

  lemma {:induction false} EveryCallWasMade(single: bool, ops: seq<SysOp>, c: nat) returns (n: nat)
    requires c < |SysRun(single, ops).calls|
    ensures MadeAt(single, ops, SysRun(single, ops).calls[c], n)
  {
    hide Authorized, Step, DecisionAt;
    var front := ops[..|ops|-1];
    var y := SysRun(single, front);
    if c < |y.calls| {
      n := EveryCallWasMade(single, front, c);
      assert front[..n] == ops[..n];
    } else {
      n := |ops| - 1;
    }
  }

  // ---------------------------------------------------------------- consent

  /** An earlier event of the same call. */
  ghost predicate Earlier(trace: seq<Tagged>, k: nat, e: Event)
    requires k < |trace|
  {
    exists i :: 0 <= i < k && trace[i] == Tagged(trace[k].call, e)
  }

  /** The event of the same call that comes right before it. */
  ghost predicate JustBefore(trace: seq<Tagged>, k: nat, e: Event)
    requires k < |trace|
  {
    exists i :: 0 <= i < k && IsJustBefore(trace, k, e, i)
  }

  ghost predicate IsJustBefore(trace: seq<Tagged>, k: nat, e: Event, i: nat)
    requires i < k < |trace|
  {
    trace[i] == Tagged(trace[k].call, e) && forall m :: i < m < k ==> trace[m].call != trace[k].call
  }

  /** Event `k` is the execution of a consequential action by call `r`: the call logged its
      admission first, held a delta if its port returned one, and when it was made the action's full
      quorum of people other than the proposer had approved it. */
  ghost predicate IsConsented(trace: seq<Tagged>, k: nat, r: Running)
    requires k < |trace|
  {
    && trace[k].event == Executing(r.a.actionId, Consequential) && TierOf(r.a) == Consequential
    && Earlier(trace, k, Logged(Consequential, "admitted"))
    && (r.w.apply == ApplyDelta ==> JustBefore(trace, k, Applied(r.a.actionId)))
    && (r.a.actionId != "" ==> forall h :: HomeOf(r.at, h, r.a) ==> Backed(r.at, h, r.a))
  }

  /** The action's quorum approved it, and whoever proposed its intent in the run so far is not among
      the people who did. */
  ghost predicate HasConsent(single: bool, ops: seq<SysOp>, r: Running) {
    r.a.actionId != "" ==> forall h :: HomeOf(r.at, h, r.a) ==>
      && (exists who :: ProposedBy(single, ops, h, who))
      && forall who :: ProposedBy(single, ops, h, who) ==> BackedBut(r.at, h, r.a, who)
  }

  /** The events of a call are in the trace in their order. */
  lemma ShareOf(trace: seq<Tagged>, es: seq<Event>, k: nat) returns (j: nat)
    requires k < |trace| && Of(trace, trace[k].call) <= es
    ensures j < |es| && es[j] == trace[k].event
    ensures forall m :: 0 <= m < j ==> Earlier(trace, k, es[m])
    ensures j > 0 ==> JustBefore(trace, k, es[j - 1])
  {
    var c := trace[k].call;
    OfTake(trace, c, k);
    j := |Of(trace[..k], c)|;
    hide Of;
    forall m | 0 <= m < j
      ensures Earlier(trace, k, es[m]) && (m == j - 1 ==> JustBefore(trace, k, es[m]))
    {
      var i := PositionOf(trace, c, m);
      if k <= i { OfGrows(trace, c, k, i); }
      if m == j - 1 {
        forall x | i < x < k ensures trace[x].call != c {
          OfGrows(trace, c, i, x);
          OfGrows(trace, c, x, k);
        }
        assert IsJustBefore(trace, k, es[m], i);
      }
    }
  }

  /** Over the trace of any orderly run, however the calls overlap and whatever fails: every
      consequential execution is a call's that had its consent. */
  lemma EveryExecutionIsConsented(single: bool, ops: seq<SysOp>, k: nat)
    requires OrderlyRun(single, ops)
    requires k < |SysRun(single, ops).trace|
    requires SysRun(single, ops).trace[k].event.Executing? && SysRun(single, ops).trace[k].event.etier == Consequential
    ensures var y := SysRun(single, ops);
      && y.trace[k].call < |y.calls| && IsConsented(y.trace, k, y.calls[y.trace[k].call])
      && exists n: nat ::
           MadeAt(single, ops, y.calls[y.trace[k].call], n)
           && HasConsent(single, ops[..n], y.calls[y.trace[k].call])
  {
    var y := SysRun(single, ops);
    RunKept(single, ops);
    var c := y.trace[k].call;
    var r := y.calls[c];
    assert CallKept(y, c);
    var n := EveryCallWasMade(single, ops, c);
    OrderlyTake(single, ops, n);
    hide Of, Earlier, JustBefore, SysRun, OrderlyRun, Authorized, ProposedBy, BackedBut;
    var j := ShareOf(y.trace, EventsOf(r), k);
    ExecutionIsAdmitted(r.a, DecisionAt(r.at, r.from), r.now, r.w, j);
    ExecutionFollowsDelta(r.a, DecisionAt(r.at, r.from), r.now, r.w, j);
    forall h | r.a.actionId != "" && HomeOf(r.at, h, r.a)
      ensures Backed(r.at, h, r.a) && (exists who :: ProposedBy(single, ops[..n], h, who))
      ensures forall who :: ProposedBy(single, ops[..n], h, who) ==> BackedBut(r.at, h, r.a, who)
    {
      ConsequentialExecutionIsConsented(single, ops[..n], r.a, r.from, r.now, r.w, h, j);
    }
  }

  lemma OrderlyTake(single: bool, ops: seq<SysOp>, n: nat)
    requires OrderlyRun(single, ops) && n <= |ops|
    ensures OrderlyRun(single, ops[..n])
  {
    var front := ops[..n];
    forall k | 0 <= k < |front| && front[k].OnStore? ensures Orderly(SysRun(single, front[..k]).store, front[k].op) {
      assert front[..k] == ops[..k] && front[k] == ops[k];
    }
  }

  // ---------------------------------------------------------------- reverts

  /** Event `j` reverts what event `k` applied, with no other delta opened or reverted between. */
  ghost predicate ClosedBy(trace: seq<Event>, k: int, j: int) {
    && 0 <= k < j < |trace| && trace[k].Applied? && trace[j].Reverting? && trace[j].actionId == trace[k].actionId
    && forall m :: k < m < j ==> !trace[m].Applied? && !trace[m].Reverting?
  }

  /** Deltas and reverts pair up: each delta with exactly one later revert attempt of its own. */
  ghost predicate Paired(trace: seq<Event>) {
    && (forall k :: 0 <= k < |trace| && trace[k].Applied? ==> exists j :: ClosedBy(trace, k, j))
    && (forall j :: 0 <= j < |trace| && trace[j].Reverting? ==> exists k :: ClosedBy(trace, k, j))
  }

  lemma OnlyPairCloses(es: seq<Event>, id: string, done: bool, k: int, j: int)
    requires Reverted(es, id, done) && 0 <= k < j < |es| && es[k] == Applied(id) && es[j] == Reverting(id, done)
    ensures ClosedBy(es, k, j)
  {
    hide RevertAfter, AppliedBefore;
  }

  lemma CallIsPaired(a: Request, decision: Maybe<Decision>, now: int, w: World)
    ensures Paired(Authorized(a, decision, now, w).events)
  {
    EveryDeltaIsReverted(a, decision, now, w);
    RevertedIsPaired(Authorized(a, decision, now, w).events, a.actionId, !w.revertThrows);
  }

  lemma RevertedIsPaired(es: seq<Event>, id: string, done: bool)
    requires Reverted(es, id, done)
    ensures Paired(es)
  {
    hide ClosedBy;
    forall k | 0 <= k < |es| && es[k].Applied? ensures exists j :: ClosedBy(es, k, j) {
      assert RevertAfter(es, k, id, done);
      var j :| 0 <= k < j < |es| && es[j] == Reverting(id, done);
      OnlyPairCloses(es, id, done, k, j);
    }
    forall j | 0 <= j < |es| && es[j].Reverting? ensures exists k :: ClosedBy(es, k, j) {
      assert AppliedBefore(es, j, id);
      var k :| 0 <= k < j < |es| && es[k] == Applied(id);
      assert RevertAfter(es, k, id, done);
      var m :| 0 <= k < m < |es| && es[m] == Reverting(id, done);
      OnlyPairCloses(es, id, done, k, m);
      assert m == j;
    }
  }

  /** At any point of any run, orderly or not, the deltas and reverts of each call pair up, counting
      what the call has left to do; so those of a finished call do. */
  lemma EveryDeltaIsClosed(single: bool, ops: seq<SysOp>, c: nat)
    requires c < |SysRun(single, ops).calls|
    ensures var y := SysRun(single, ops);
      && Paired(Of(y.trace, c) + y.calls[c].todo)
      && (y.calls[c].todo == [] ==> Paired(Of(y.trace, c)))
  {
    var y := SysRun(single, ops);
    RunKept(single, ops);
    var r := y.calls[c];
    CallIsPaired(r.a, DecisionAt(r.at, r.from), r.now, r.w);
    hide Paired, Authorized, Of;
    assert CallKept(y, c);
    assert Of(y.trace, c) + [] == Of(y.trace, c);
  }

  /** In the joint trace: the call that applied delta `k` attempts its revert at `j`, once, with no
      other delta of its own between. */
  ghost predicate ClosedInTrace(trace: seq<Tagged>, k: nat, j: nat) {
    && k < j < |trace| && trace[k].event.Applied? && trace[j].event.Reverting? && trace[j].call == trace[k].call
    && trace[j].event.actionId == trace[k].event.actionId
    && forall m :: k < m < j && trace[m].call == trace[k].call ==>
      !trace[m].event.Applied? && !trace[m].event.Reverting?
  }

  lemma FinishedCallsAreClosed(single: bool, ops: seq<SysOp>, k: nat) returns (j: nat)
    requires var y := SysRun(single, ops);
      k < |y.trace| && y.trace[k].event.Applied? && y.trace[k].call < |y.calls| && y.calls[y.trace[k].call].todo == []
    ensures ClosedInTrace(SysRun(single, ops).trace, k, j)
  {
    var trace := SysRun(single, ops).trace;
    var c := trace[k].call;
    EveryDeltaIsClosed(single, ops, c);
    OfTake(trace, c, k);
    var share, m := Of(trace, c), |Of(trace[..k], c)|;
    hide SysRun, Of;
    var q :| ClosedBy(share, m, q);
    j := PositionOf(trace, c, q);
    if j <= k { OfGrows(trace, c, j, k); }
    forall x | k < x < j && trace[x].call == c ensures !trace[x].event.Applied? && !trace[x].event.Reverting? {
      OfTake(trace, c, x);
      OfGrows(trace, c, k, x);
      OfGrows(trace, c, x, j);
    }
  }
}
