/** applyDelta and revertDelta against a live document, each command free to fail. */
module OpenShell {
  import opened Wrappers
  import opened PolicyDelta

  /** The call a decision allows; any of the three may be missing (empty). */
  datatype Egress = Egress(host: string, httpMethod: string, path: string)

  datatype OpenDelta = OpenDelta(id: string, host: string, httpMethod: string, path: string, expiresAt: int)

  datatype ApplyResult =
    | AppliedAs(delta: OpenDelta) | MissingRequest | ApplyReadFailed | UndeclaredHost | NotRest | ApplyWriteFailed
  datatype RevertResult =
    | NothingOpen | RevertReadFailed | RevertWriteFailed | CheckFailed | StillGranted | RevertedRules(removed: nat)

  class OpenShellPolicy {
    const dryRun: bool
    const ttlMs: int
    /** The policy as the sandbox holds it. */
    var live: Doc
    var open: map<string, OpenDelta>

    /** The document this port started from, whatever it holds, the capabilities open on it, and
        the tags that have been reverted. */
    ghost const original: Doc
    ghost var grants: seq<Grant>
    ghost var gone: set<string>

    /** The live document is the original, less reverted tags, with the tagged rules of exactly the
        open actions behind the rules of the endpoints they were granted on; a dry run never
        touches it. */
    ghost predicate Valid()
      reads this
    {
      && live == Layout(original, grants, gone)
      && (forall k :: 0 <= k < |grants| ==> grants[k].at < |original| && original[grants[k].at].protocol == "rest")
      && (forall id :: id in open ==> open[id].id == DeltaId(id))
      && (if dryRun then grants == [] && gone == {} else Ids(grants) == open.Keys)
    }

    constructor (doc: Doc, dryRun: bool, ttlMs: int)
      ensures Valid() && live == doc && original == doc && open == map[] && grants == [] && gone == {}
      ensures this.dryRun == dryRun && this.ttlMs == ttlMs
    {
      this.dryRun, this.ttlMs, live, original := dryRun, ttlMs, doc, doc;
      open, grants, gone := map[], [], {};
      new;
      FreshLayout(doc);
      assert Ids([]) == {};
    }

    /** Adds exactly one method on one path of a declared, inspected host; any failure leaves the
        document and the open set as they were. */
    method ApplyDelta(actionId: string, req: Egress, now: int, readFails: bool, writeFails: bool)
      returns (r: ApplyResult)
      requires Valid()
      modifies this
      ensures Valid() && gone == old(gone)
      ensures !r.AppliedAs? ==> live == old(live) && open == old(open) && grants == old(grants)
      ensures r.AppliedAs? ==>
        && r.delta == OpenDelta(DeltaId(actionId), req.host, req.httpMethod, req.path, now + ttlMs)
        && open == old(open)[actionId := r.delta]
        && EndpointFor(original, req.host) < |original|
        && (!dryRun ==>
              grants == old(grants) + [Grant(actionId, EndpointFor(original, req.host), req.httpMethod, req.path)])
      ensures r.AppliedAs? && !dryRun ==>
        var at := EndpointFor(original, req.host);
        && |live| == |old(live)| && (forall e :: 0 <= e < |live| && e != at ==> live[e] == old(live)[e])
        && RulesOf(live[at])
          == RulesOf(old(live)[at]) + [Rule(req.httpMethod, req.path, Some("omoda-delta-" + actionId))]
        && live[at].host == req.host && live[at].protocol == "rest"
      ensures r.AppliedAs? && dryRun ==> live == old(live)
      ensures r.AppliedAs? <==>
        && req.host != "" && req.httpMethod != "" && req.path != "" && !readFails
        && EndpointFor(original, req.host) < |original| && original[EndpointFor(original, req.host)].protocol == "rest"
        && (dryRun || !writeFails)
      ensures r == UndeclaredHost ==> forall e :: 0 <= e < |original| ==> original[e].host != req.host
    {
      hide Layout, DeltaId, Ids;
      if req.host == "" || req.httpMethod == "" || req.path == "" { return MissingRequest; }
      if readFails { return ApplyReadFailed; }
      var doc := live;
      DeltaIdIs(actionId);
      LayoutShape(original, grants, gone);
      SameEndpoint(original, live, req.host);
      var at := EndpointFor(doc, req.host);
      if at == |doc| { return UndeclaredHost; }
      if doc[at].protocol != "rest" { return NotRest; }
      ghost var g := Grant(actionId, at, req.httpMethod, req.path);
      doc := Pushed(doc, at, Rule(req.httpMethod, req.path, Some(DeltaId(actionId))));
      var rec := OpenDelta(DeltaId(actionId), req.host, req.httpMethod, req.path, now + ttlMs);
      if !dryRun {
        if writeFails { return ApplyWriteFailed; }
        PushIsLayout(original, grants, gone, g);
        IdsMore(grants, g);
        live := doc;
        grants := grants + [g];
      }
      open := open[actionId := rec];
      return AppliedAs(rec);
    }

    /** Removes the action's rules and no others, keeping the rest in order, also when the check
        afterwards fails or still finds the call allowed. */
    method RevertDelta(actionId: string, readFails: bool, writeFails: bool, checkFails: bool, stillAllowed: bool)
      returns (r: RevertResult)
      requires Valid()
      modifies this
      ensures Valid()
      ensures r == NothingOpen <==> actionId !in old(open)
      ensures r in {NothingOpen, RevertReadFailed, RevertWriteFailed} ==>
        live == old(live) && open == old(open) && grants == old(grants) && gone == old(gone)
      ensures r !in {NothingOpen, RevertReadFailed, RevertWriteFailed} ==>
        && open == old(open) - {actionId}
        && (!dryRun ==> grants == Except(old(grants), actionId) && gone == old(gone) + {DeltaId(actionId)})
        && (dryRun ==> live == old(live) && gone == old(gone))
        && (!dryRun ==> live == Filtered(old(live), "omoda-delta-" + actionId))
      ensures r.RevertedRules? ==> r.removed == TaggedRules(old(live), DeltaId(actionId))
      ensures actionId in old(open) && !readFails && !writeFails && !checkFails && !stillAllowed ==> r.RevertedRules?
    {
      hide Layout, DeltaId, Ids, Filtered;
      DeltaIdIs(actionId);
      if actionId !in open { return NothingOpen; }
      var tag := open[actionId].id;
      if readFails { return RevertReadFailed; }
      var doc, removed := FilterRules(live, tag);
      if !dryRun {
        if writeFails { return RevertWriteFailed; }
        FilterIsLayout(original, grants, gone, actionId);
        ExceptIs(grants, actionId);
        IdsOfExcept(grants, actionId);
        live := doc;
        grants := Except(grants, actionId);
        gone := gone + {tag};
        assert forall k :: 0 <= k < |grants| ==> grants[k] in grants;
      }
      open := open - {actionId};
      if !dryRun {
        if checkFails { return CheckFailed; }
        if stillAllowed { return StillGranted; }
      }
      return RevertedRules(removed);
    }
  }

  /** The rules carrying a tag, over the whole document. */
  function TaggedRules(doc: Doc, tag: string): nat {
    if |doc| == 0 then 0
    else
      var rules := RulesOf(doc[|doc|-1]);
      KeepShorter(rules, tag);
      TaggedRules(doc[..|doc|-1], tag) + (|rules| - |Keep(rules, tag)|)
  }

  lemma {:induction false} KeepShorter(rules: seq<Rule>, tag: string)
    ensures |Keep(rules, tag)| <= |rules|
  {
    if |rules| > 0 { KeepShorter(rules[..|rules|-1], tag); }
  }

  /** The loop of a revert: every endpoint's list is filtered, and the removals counted. */
  method FilterRules(doc: Doc, tag: string) returns (out: Doc, removed: nat)
    ensures out == Filtered(doc, tag) && removed == TaggedRules(doc, tag)
  {
    out, removed := [], 0;
    for e := 0 to |doc|
      invariant |out| == e && forall i :: 0 <= i < e ==> out[i] == doc[i].(rules := Some(Keep(RulesOf(doc[i]), tag)))
      invariant removed == TaggedRules(doc[..e], tag)
    {
      assert doc[..e + 1][..e] == doc[..e];
      var rules := RulesOf(doc[e]);
      var kept := Keep(rules, tag);
      KeepShorter(rules, tag);
      removed := removed + (|rules| - |kept|);
      out := out + [doc[e].(rules := Some(kept))];
    }
    assert doc[..|doc|] == doc;
  }

  lemma FreshLayout(doc: Doc)
    ensures Layout(doc, [], {}) == doc
  {
    forall e | 0 <= e < |doc| ensures Layout(doc, [], {})[e] == doc[e] { NoTail(e); }
  }

  lemma LayoutShape(original: Doc, grants: seq<Grant>, gone: set<string>)
    ensures var doc := Layout(original, grants, gone);
      |doc| == |original| && forall e :: 0 <= e < |doc| ==>
        doc[e].host == original[e].host && doc[e].protocol == original[e].protocol
  {
  }

  lemma {:induction false} SameEndpoint(a: Doc, b: Doc, host: string)
    requires |a| == |b| && forall e :: 0 <= e < |a| ==> a[e].host == b[e].host
    ensures EndpointFor(a, host) == EndpointFor(b, host)
  {
    if |a| > 0 && a[0].host != host { SameEndpoint(a[1..], b[1..], host); }
  }

  lemma IdsMore(grants: seq<Grant>, g: Grant)
    ensures Ids(grants + [g]) == Ids(grants) + {g.actionId}
  {
    var more := grants + [g];
    forall x ensures x in Ids(more) <==> x in Ids(grants) + {g.actionId} {
      if x in Ids(grants) {
        var k :| 0 <= k < |grants| && grants[k].actionId == x;
        assert more[k] == grants[k];
      }
      if x == g.actionId { assert more[|grants|] == g; }
    }
  }

  lemma NoIdsNoGrants(grants: seq<Grant>)
    ensures Ids(grants) == {} ==> grants == []
  {
    if |grants| > 0 {
      var id := grants[0].actionId;
      assert id in Ids(grants);
    }
  }

  /** With no capability open the live rules of every endpoint are the original ones less those
      whose tags were reverted; the document itself is the original exactly when no revert ran or
      every endpoint had a rules list without such a tag. */
  lemma ClosedMeansRestored(p: OpenShellPolicy)
    requires p.Valid() && p.open == map[]
    ensures |p.live| == |p.original|
    ensures forall e :: 0 <= e < |p.live| ==>
      RulesOf(p.live[e]) == Strip(RulesOf(p.original[e]), p.gone) && p.live[e].host == p.original[e].host
    ensures p.live == p.original <==>
      p.gone == {} || forall e :: 0 <= e < |p.original| ==> Untouched(p.original[e], p.gone)
  {
    NoIdsNoGrants(p.grants);
    RestoredExactly(p.original, p.gone);
    LayoutShape(p.original, p.grants, p.gone);
  }
}
