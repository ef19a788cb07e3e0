/** The on-box policy port: a delta adds one tagged rule to one endpoint of the live document and
    a revert takes out that tag and nothing else. */
module PolicyDelta {
  import opened Wrappers

  /** `delta` is the tag of a rule added for an action; compiled rules have none. */
  datatype Rule = Rule(httpMethod: string, path: string, delta: Maybe<string>)

  /** The rules list may be missing from an endpoint. */
  datatype Endpoint = Endpoint(group: string, host: string, protocol: string, rules: Maybe<seq<Rule>>)

  /** The endpoints of all groups in the order the loops visit them. */
  type Doc = seq<Endpoint>

  function RulesOf(e: Endpoint): seq<Rule> {
    if e.rules.Some? then e.rules.value else []
  }

  function DeltaId(actionId: string): string {
    "omoda-delta-" + actionId
  }

  /** The first endpoint for a host, or the number of endpoints. */
  function EndpointFor(doc: Doc, host: string): (n: nat)
    ensures n <= |doc| && (n < |doc| ==> doc[n].host == host) && forall i :: 0 <= i < n ==> doc[i].host != host
  {
    if |doc| == 0 || doc[0].host == host then 0 else EndpointFor(doc[1..], host) + 1
  }

  function Keep(rules: seq<Rule>, tag: string): seq<Rule> {
    if |rules| == 0 then []
    else
      var front, r := Keep(rules[..|rules|-1], tag), rules[|rules|-1];
      if r.delta == Some(tag) then front else front + [r]
  }

  // ---------------------------------------------------------------- what the document should be

  /** One capability that is open: its action and the rule it was given, at endpoint `at`. */
  datatype Grant = Grant(actionId: string, at: nat, httpMethod: string, path: string)

  function RuleFor(g: Grant): Rule {
    Rule(g.httpMethod, g.path, Some(DeltaId(g.actionId)))
  }

  /** The rules of the open grants at endpoint `e`, in the order they were applied. */
  function Tail(grants: seq<Grant>, e: nat): seq<Rule> {
    if |grants| == 0 then []
    else
      var front, g := Tail(grants[..|grants|-1], e), grants[|grants|-1];
      if g.at == e then front + [RuleFor(g)] else front
  }

  function Except(grants: seq<Grant>, actionId: string): seq<Grant> {
    if |grants| == 0 then []
    else
      var front, g := Except(grants[..|grants|-1], actionId), grants[|grants|-1];
      if g.actionId == actionId then front else front + [g]
  }

  /** A rule that a revert of one of these tags takes out, whoever added it. */
  predicate Gone(r: Rule, gone: set<string>) {
    r.delta.Some? && r.delta.value in gone
  }

  function Strip(rules: seq<Rule>, gone: set<string>): seq<Rule> {
    if |rules| == 0 then []
    else
      var front, r := Strip(rules[..|rules|-1], gone), rules[|rules|-1];
      if Gone(r, gone) then front else front + [r]
  }

  /** An endpoint of the original document, less the rules whose tags have been reverted, with the
      open grants behind. A revert gives every endpoint a rules list, an empty one where there was none. */
  function EndpointWith(e: Endpoint, tail: seq<Rule>, gone: set<string>): Endpoint {
    if tail == [] && gone == {} then e else e.(rules := Some(Strip(RulesOf(e), gone) + tail))
  }

  /** `gone` are the tags that have been reverted so far. */
  function Layout(original: Doc, grants: seq<Grant>, gone: set<string>): (doc: Doc)
    ensures |doc| == |original|
  {
    seq(|original|, i requires 0 <= i < |original| => EndpointWith(original[i], Tail(grants, i), gone))
  }

  function Ids(grants: seq<Grant>): set<string> {
    set k | 0 <= k < |grants| :: grants[k].actionId
  }

  // ---------------------------------------------------------------- lemmas

  lemma {:induction false} KeepAppend(a: seq<Rule>, b: seq<Rule>, tag: string)
    ensures Keep(a + b, tag) == Keep(a, tag) + Keep(b, tag)
  {
    if |b| == 0 {
      assert a + b == a;
    } else {
      assert (a + b)[..|a + b|-1] == a + b[..|b|-1];
      KeepAppend(a, b[..|b|-1], tag);
    }
  }

  lemma {:induction false} StripNothing(rules: seq<Rule>)
    ensures Strip(rules, {}) == rules
  {
    if |rules| > 0 { StripNothing(rules[..|rules|-1]); }
  }

  /** Filtering one more tag out of what is left of the original rules. */
  lemma {:induction false} KeepStrip(rules: seq<Rule>, gone: set<string>, tag: string)
    ensures Keep(Strip(rules, gone), tag) == Strip(rules, gone + {tag})
  {
    if |rules| > 0 {
      var front, r := rules[..|rules|-1], rules[|rules|-1];
      KeepStrip(front, gone, tag);
      var left := Strip(front, gone);
      assert (left + [r])[..|left|] == left;
    }
  }

  /** Nothing is stripped exactly when no rule carries one of the tags. */
  lemma {:induction false} StripIsAll(rules: seq<Rule>, gone: set<string>)
    ensures |Strip(rules, gone)| <= |rules|
    ensures Strip(rules, gone) == rules <==> forall r :: r in rules ==> !Gone(r, gone)
  {
    if |rules| > 0 {
      var front, r := rules[..|rules|-1], rules[|rules|-1];
      StripIsAll(front, gone);
      assert forall x :: x in rules <==> x in front || x == r;
      assert rules == front + [r];
    }
  }

  /** A filter takes a rule exactly when it has the tag; of a list it keeps the rest in order. */
  lemma KeepIs(a: seq<Rule>, r: Rule, b: seq<Rule>, tag: string)
    ensures Keep(a + [r] + b, tag) == Keep(a, tag) + (if r.delta == Some(tag) then [] else [r]) + Keep(b, tag)
    ensures Keep([], tag) == []
  {
    assert [r][..0] == [];
    KeepAppend(a + [r], b, tag);
    KeepAppend(a, [r], tag);
  }

  /** The tag as it is spelled. */
  lemma DeltaIdIs(actionId: string)
    ensures DeltaId(actionId) == "omoda-delta-" + actionId
  {
  }

  lemma DeltaIdInjective(a: string, b: string)
    requires DeltaId(a) == DeltaId(b)
    ensures a == b
  {
    assert DeltaId(a)[12..] == a && DeltaId(b)[12..] == b;
  }

  lemma {:induction false} KeepTail(grants: seq<Grant>, e: nat, actionId: string)
    ensures Keep(Tail(grants, e), DeltaId(actionId)) == Tail(Except(grants, actionId), e)
  {
    if |grants| > 0 {
      var front, g := grants[..|grants|-1], grants[|grants|-1];
      KeepTail(front, e, actionId);
      if DeltaId(g.actionId) == DeltaId(actionId) { DeltaIdInjective(g.actionId, actionId); }
      var kept := Except(front, actionId);
      assert (kept + [g])[..|kept|] == kept;
      if g.at == e {
        var t := Tail(front, e);
        assert (t + [RuleFor(g)])[..|t|] == t;
      }
    }
  }

  lemma {:induction false} ExceptIs(grants: seq<Grant>, actionId: string)
    ensures forall g :: g in Except(grants, actionId) <==> g in grants && g.actionId != actionId
  {
    if |grants| > 0 {
      ExceptIs(grants[..|grants|-1], actionId);
      assert grants == grants[..|grants|-1] + [grants[|grants|-1]];
    }
  }

  lemma IdsOfExcept(grants: seq<Grant>, actionId: string)
    ensures Ids(Except(grants, actionId)) == Ids(grants) - {actionId}
  {
    ExceptIs(grants, actionId);
    var kept := Except(grants, actionId);
    forall x ensures x in Ids(kept) <==> x in Ids(grants) - {actionId} {
      if x in Ids(kept) {
        var k :| 0 <= k < |kept| && kept[k].actionId == x;
        assert kept[k] in grants;
        var j :| 0 <= j < |grants| && grants[j] == kept[k];
      }
      if x in Ids(grants) - {actionId} {
        var k :| 0 <= k < |grants| && grants[k].actionId == x;
        assert grants[k] in kept;
        var j :| 0 <= j < |kept| && kept[j] == grants[k];
      }
    }
  }

  lemma TailMore(grants: seq<Grant>, g: Grant, e: nat)
    ensures Tail(grants + [g], e) == if g.at == e then Tail(grants, e) + [RuleFor(g)] else Tail(grants, e)
  {
    assert (grants + [g])[..|grants|] == grants;
  }

  function Pushed(doc: Doc, at: nat, r: Rule): Doc
    requires at < |doc|
  {
    doc[at := doc[at].(rules := Some(RulesOf(doc[at]) + [r]))]
  }

  function Filtered(doc: Doc, tag: string): (out: Doc)
    ensures |out| == |doc|
  {
    seq(|doc|, i requires 0 <= i < |doc| => doc[i].(rules := Some(Keep(RulesOf(doc[i]), tag))))
  }

  lemma EndpointMore(e: Endpoint, tail: seq<Rule>, gone: set<string>, r: Rule)
    ensures EndpointWith(e, tail + [r], gone)
         == EndpointWith(e, tail, gone).(rules := Some(RulesOf(EndpointWith(e, tail, gone)) + [r]))
  {
    var base := Strip(RulesOf(e), gone);
    StripNothing(RulesOf(e));
    hide Strip;
    assert base + (tail + [r]) == (base + tail) + [r];
    assert base + [] == base;
  }

  /** Applying a delta to a laid-out document gives the layout with one more grant, hosts unchanged. */
  lemma PushIsLayout(original: Doc, grants: seq<Grant>, gone: set<string>, g: Grant)
    requires g.at < |original|
    ensures Pushed(Layout(original, grants, gone), g.at, RuleFor(g)) == Layout(original, grants + [g], gone)
  {
    var doc := Layout(original, grants, gone);
    var more := Layout(original, grants + [g], gone);
    hide EndpointWith, Tail, Strip, RuleFor, RulesOf;
    forall e | 0 <= e < |doc| ensures Pushed(doc, g.at, RuleFor(g))[e] == more[e] {
      TailMore(grants, g, e);
      EndpointMore(original[e], Tail(grants, e), gone, RuleFor(g));
    }
  }

  /** Filtering a tag out of a laid-out document gives the layout without that action's grants and
      without original rules of that tag: every other rule stays, in order. */
  lemma FilterIsLayout(original: Doc, grants: seq<Grant>, gone: set<string>, actionId: string)
    ensures Filtered(Layout(original, grants, gone), DeltaId(actionId))
         == Layout(original, Except(grants, actionId), gone + {DeltaId(actionId)})
  {
    var doc, tag := Layout(original, grants, gone), DeltaId(actionId);
    hide DeltaId;
    var less := Layout(original, Except(grants, actionId), gone + {tag});
    forall e | 0 <= e < |doc| ensures Filtered(doc, tag)[e] == less[e] {
      var base, tail := Strip(RulesOf(original[e]), gone), Tail(grants, e);
      StripNothing(RulesOf(original[e]));
      assert base + [] == base;
      assert RulesOf(doc[e]) == base + tail;
      KeepAppend(base, tail, tag);
      KeepStrip(RulesOf(original[e]), gone, tag);
      KeepTail(grants, e, actionId);
    }
  }

  lemma {:induction false} NoTail(e: nat)
    ensures Tail([], e) == []
  {
  }

  /** The endpoint has a rules list, and no rule in it carries a reverted tag. */
  predicate Untouched(e: Endpoint, gone: set<string>) {
    e.rules.Some? && forall r :: r in e.rules.value ==> !Gone(r, gone)
  }

  /** With nothing open the document is the original exactly when no revert has run yet, or every
      endpoint had a rules list and no rule of it a tag that was reverted. The rules themselves are
      always the original ones less those tags, and nothing else of an endpoint changes. */
  lemma RestoredExactly(original: Doc, gone: set<string>)
    ensures Layout(original, [], gone) == original <==>
      gone == {} || forall e :: 0 <= e < |original| ==> Untouched(original[e], gone)
    ensures forall e :: 0 <= e < |original| ==>
      && RulesOf(Layout(original, [], gone)[e]) == Strip(RulesOf(original[e]), gone)
      && Layout(original, [], gone)[e].(rules := None) == original[e].(rules := None)
  {
    var doc := Layout(original, [], gone);
    forall e | 0 <= e < |original|
      ensures RulesOf(doc[e]) == Strip(RulesOf(original[e]), gone)
      ensures doc[e].(rules := None) == original[e].(rules := None)
      ensures doc[e] == original[e] <==> gone == {} || Untouched(original[e], gone)
    {
      NoTail(e);
      var base := RulesOf(original[e]);
      StripNothing(base);
      StripIsAll(base, gone);
      assert Strip(base, gone) + [] == Strip(base, gone);
    }
    if e :| 0 <= e < |original| && gone != {} && !Untouched(original[e], gone) {
      assert doc[e] != original[e];
    }
  }
}
