/** Every skill's compiled policy merged into one. */
module PolicyMerge {
  import opened Wrappers
  import opened Taxonomy
  import opened PolicyCompile

  /** Properties every object inherits: looking one up in an object without such a key of its own
      finds something, and reading an endpoint of it fails. */
  const INHERITED: set<string> := {
    "constructor", "hasOwnProperty", "isPrototypeOf", "propertyIsEnumerable", "toLocaleString", "toString", "valueOf",
    "__defineGetter__", "__defineSetter__", "__lookupGetter__", "__lookupSetter__", "__proto__"
  }

  /** The rules of both, the first list in front, none added twice. */
  function Union(a: seq<Rule>, b: seq<Rule>): seq<Rule> {
    if |b| == 0 then a else AddRule(Union(a, b[..|b|-1]), b[|b|-1])
  }

  /** A key that is new brings its endpoint; a known key brings its rules and nothing else. */
  function Combined(acc: Policies, f: Policies, k: string): Endpoint
    requires k in f
  {
    if k !in acc then f[k] else acc[k].(rules := Union(acc[k].rules, f[k].rules))
  }

  function MergeOne(acc: Policies, f: Policies): Policies {
    map k | k in acc.Keys + f.Keys :: if k in f then Combined(acc, f, k) else acc[k]
  }

  function MergeAll(fs: seq<Policies>): Policies {
    if |fs| == 0 then map[] else MergeOne(MergeAll(fs[..|fs|-1]), fs[|fs|-1])
  }

  ghost predicate Fails(fs: seq<Policies>) {
    exists i, k :: 0 <= i < |fs| && k in fs[i] && k in INHERITED
  }

  /** What the merge returns, or that it raises. */
  ghost function MergeResult(fs: seq<Policies>): Maybe<Policies> {
    if Fails(fs) then None else Some(MergeAll(fs))
  }

  method AddRules(rules: seq<Rule>, more: seq<Rule>) returns (all: seq<Rule>)
    ensures all == Union(rules, more)
  {
    all := rules;
    for i := 0 to |more|
      invariant all == Union(rules, more[..i])
    {
      assert more[..i + 1][..i] == more[..i];
      if more[i] !in all { all := all + [more[i]]; }
    }
    assert more[..|more|] == more;
  }

  /** `m` is the merge but for the keys in `todo`. */
  ghost predicate PartlyMerged(m: Policies, acc: Policies, f: Policies, todo: set<string>) {
    && todo <= f.Keys && m.Keys == acc.Keys + (f.Keys - todo)
    && (forall k :: k in f && k !in todo ==> m[k] == Combined(acc, f, k))
    && (forall k :: k in acc && (k !in f || k in todo) ==> m[k] == acc[k])
  }

  lemma MergeKey(m: Policies, acc: Policies, f: Policies, todo: set<string>, k: string)
    requires PartlyMerged(m, acc, f, todo) && k in todo
    ensures k in m <==> k in acc
    ensures k in acc ==> m[k] == acc[k]
    ensures PartlyMerged(m[k := Combined(acc, f, k)], acc, f, todo - {k})
  {
    hide Combined;
  }

  /** One skill's keys in any order. */
  method MergeFragment(acc: Policies, f: Policies) returns (merged: Maybe<Policies>)
    ensures merged == if f.Keys !! INHERITED then Some(MergeOne(acc, f)) else None
  {
    hide PartlyMerged, Union;
    var m, todo := acc, f.Keys;
    NoneMerged(acc, f);
    while todo != {}
      invariant todo <= f.Keys && (f.Keys - todo) !! INHERITED && PartlyMerged(m, acc, f, todo)
      decreases |todo|
    {
      var k :| k in todo;
      MergeKey(m, acc, f, todo, k);
      if k in INHERITED { return None; }
      if k !in m {
        m := m[k := f[k]];
      } else {
        var rules := AddRules(m[k].rules, f[k].rules);
        m := m[k := m[k].(rules := rules)];
      }
      todo := todo - {k};
    }
    AllMerged(m, acc, f);
    merged := Some(m);
  }

  lemma NoneMerged(acc: Policies, f: Policies)
    ensures PartlyMerged(acc, acc, f, f.Keys)
  {
  }

  lemma AllMerged(m: Policies, acc: Policies, f: Policies)
    requires PartlyMerged(m, acc, f, {})
    ensures m == MergeOne(acc, f)
  {
  }

  method MergeFragments(fs: seq<Policies>) returns (merged: Maybe<Policies>)
    ensures merged == MergeResult(fs)
  {
    var acc: Policies := map[];
    for i := 0 to |fs|
      invariant acc == MergeAll(fs[..i]) && forall j :: 0 <= j < i ==> fs[j].Keys !! INHERITED
    {
      assert fs[..i + 1][..i] == fs[..i];
      var next := MergeFragment(acc, fs[i]);
      if next == None { return None; }
      acc := next.value;
    }
    assert fs[..|fs|] == fs;
    merged := Some(acc);
  }

  // ---------------------------------------------------------------- what the merge holds

  lemma {:induction false} UnionIs(a: seq<Rule>, b: seq<Rule>)
    ensures forall r :: r in Union(a, b) <==> r in a || r in b
    ensures Distinct(a) ==> Distinct(Union(a, b))
    ensures a <= Union(a, b)
  {
    if |b| > 0 {
      UnionIs(a, b[..|b|-1]);
      assert b == b[..|b|-1] + [b[|b|-1]];
    }
  }

  /** Some fragment has that rule under that key. */
  ghost predicate Offers(fs: seq<Policies>, k: string, r: Rule) {
    exists i :: 0 <= i < |fs| && k in fs[i] && r in fs[i][k].rules
  }

  ghost predicate IsFirst(fs: seq<Policies>, k: string, i: nat)
    requires i < |fs|
  {
    k in fs[i] && forall j :: 0 <= j < i ==> k !in fs[j]
  }

  lemma OffersMore(fs: seq<Policies>, f: Policies, k: string, r: Rule)
    ensures Offers(fs + [f], k, r) <==> Offers(fs, k, r) || (k in f && r in f[k].rules)
  {
    var more: seq<Policies> := fs + [f];
    if Offers(fs, k, r) {
      var i :| 0 <= i < |fs| && k in fs[i] && r in fs[i][k].rules;
      assert k in more[i] && r in more[i][k].rules;
    }
    if k in f && r in f[k].rules { assert k in more[|fs|] && r in more[|fs|][k].rules; }
  }

  /** A merged key has the host and port of the first fragment that has it, and the rules of all of
      them, none twice. */
  lemma {:induction false} MergeAllIs(fs: seq<Policies>, k: string) returns (i: nat)
    requires k in MergeAll(fs)
    requires forall j :: 0 <= j < |fs| && k in fs[j] ==> Distinct(fs[j][k].rules)
    ensures i < |fs| && IsFirst(fs, k, i)
    ensures MergeAll(fs)[k].host == fs[i][k].host && MergeAll(fs)[k].port == fs[i][k].port
    ensures forall r :: r in MergeAll(fs)[k].rules <==> Offers(fs, k, r)
    ensures Distinct(MergeAll(fs)[k].rules)
    ensures fs[i][k].rules <= MergeAll(fs)[k].rules
  {
    hide Distinct, Union, Offers;
    var front, f := fs[..|fs|-1], fs[|fs|-1];
    assert fs == front + [f];
    forall r ensures Offers(fs, k, r) <==> Offers(front, k, r) || (k in f && r in f[k].rules) {
      OffersMore(front, f, k, r);
    }
    if k in MergeAll(front) {
      i := MergeAllIs(front, k);
      if k in f { UnionIs(MergeAll(front)[k].rules, f[k].rules); }
    } else {
      i := |fs| - 1;
      forall j | 0 <= j < i ensures k !in fs[j] { NotMerged(front, k, j); }
      forall r ensures !Offers(front, k, r) { NotOffered(front, k, r); }
    }
  }

  lemma {:induction false} NotMerged(fs: seq<Policies>, k: string, j: nat)
    requires k !in MergeAll(fs) && j < |fs|
    ensures k !in fs[j]
  {
    if j < |fs| - 1 { NotMerged(fs[..|fs|-1], k, j); }
  }

  lemma MergedHas(fs: seq<Policies>, k: string, j: nat)
    requires j < |fs| && k in fs[j]
    ensures k in MergeAll(fs)
  {
    if k !in MergeAll(fs) { NotMerged(fs, k, j); }
  }

  lemma NotOffered(fs: seq<Policies>, k: string, r: Rule)
    requires k !in MergeAll(fs)
    ensures !Offers(fs, k, r)
  {
    forall i | 0 <= i < |fs| ensures k !in fs[i] { NotMerged(fs, k, i); }
  }

  // ---------------------------------------------------------------- compiled and merged

  type Skills = seq<seq<Capability>>

  function Fragments(skills: Skills, before: Order): (fs: seq<Policies>)
    ensures |fs| == |skills| && forall i :: 0 <= i < |fs| ==> fs[i] == Compiled(skills[i], before)
  {
    seq(|skills|, i requires 0 <= i < |skills| => Compiled(skills[i], before))
  }

  function Everything(skills: Skills): seq<Capability> {
    if |skills| == 0 then [] else Everything(skills[..|skills|-1]) + skills[|skills|-1]
  }

  lemma {:induction false} EverythingIs(skills: Skills)
    ensures forall c :: c in Everything(skills) <==> exists i :: 0 <= i < |skills| && c in skills[i]
  {
    if |skills| > 0 {
      var front, last := skills[..|skills|-1], skills[|skills|-1];
      EverythingIs(front);
      forall c ensures c in Everything(skills) <==> exists i :: 0 <= i < |skills| && c in skills[i] {
        if c in Everything(front) {
          var i :| 0 <= i < |front| && c in front[i];
          assert c in skills[i];
        }
        if c in last { assert c in skills[|skills| - 1]; }
        if i :| 0 <= i < |skills| && c in skills[i] {
          if i < |front| { assert c in front[i]; }
        }
      }
    }
  }

  /** The merge of what all the skills compile to. */
  function Merged(skills: Skills, before: Order): Policies {
    MergeAll(Fragments(skills, before))
  }

  /** A merged endpoint, in terms of the declarations: its rules are asked for by capabilities whose
      host has its key, and no rule stands twice. */
  lemma MergedEndpointIs(skills: Skills, before: Order, k: string) returns (i: nat)
    requires k in Merged(skills, before)
    ensures i < |skills| && k in Compiled(skills[i], before)
    ensures Merged(skills, before)[k].host == Compiled(skills[i], before)[k].host
      && Merged(skills, before)[k].port == Compiled(skills[i], before)[k].port
    ensures PolicyKey(Merged(skills, before)[k].host) == k
    ensures Distinct(Merged(skills, before)[k].rules)
    ensures forall r :: r in Merged(skills, before)[k].rules <==> Offers(Fragments(skills, before), k, r)
  {
    hide Compiled, PolicyKey, Distinct, Offers;
    var fs: seq<Policies> := Fragments(skills, before);
    forall j | 0 <= j < |fs| && k in fs[j] ensures Distinct(fs[j][k].rules) {
      var _ := EndpointIs(skills[j], before, k);
    }
    i := MergeAllIs(fs, k);
    var _ := EndpointIs(skills[i], before, k);
  }

  lemma OfferedIsAsked(skills: Skills, before: Order, k: string, r: Rule) returns (c: Capability)
    requires Offers(Fragments(skills, before), k, r)
    ensures c in Everything(skills) && Asks(c, r) && PolicyKey(c.egress.value.host) == k
  {
    hide PolicyKey, Compiled, Asks;
    var fs: seq<Policies> := Fragments(skills, before);
    var i :| 0 <= i < |fs| && k in fs[i] && r in fs[i][k].rules;
    var _ := EndpointIs(skills[i], before, k);
    c :| c in skills[i] && Reaches(c, Compiled(skills[i], before)[k].host, Compiled(skills[i], before)[k].port)
      && Asks(c, r);
    EverythingIs(skills);
  }

  /** No rule of the merge comes from nowhere: some skill declares that method's verb for that path,
      on a host with that key. So a path whose writes all carry an impact is open to GET alone. */
  lemma MergedRuleIsAsked(skills: Skills, before: Order, k: string, r: Rule) returns (c: Capability)
    requires k in Merged(skills, before) && r in Merged(skills, before)[k].rules
    ensures c in Everything(skills) && Asks(c, r) && PolicyKey(c.egress.value.host) == k
    ensures (forall d ::
               d in Everything(skills) && d.egress.Some? && d.egress.value.path == r.path && IsWrite(d.verb) ==>
               RequiresConsent(d.verb, d.impact))
      ==> r.httpMethod == "GET"
  {
    hide PolicyKey, Merged, Offers, Distinct, Compiled, Everything, RequiresConsent;
    var _ := MergedEndpointIs(skills, before, k);
    c := OfferedIsAsked(skills, before, k, r);
  }

  lemma PartKeysApart(skills: Skills, i: nat)
    requires KeysApart(Everything(skills)) && i < |skills|
    ensures KeysApart(skills[i])
  {
    hide PolicyKey, Reaches;
    EverythingIs(skills);
    assert forall c :: c in skills[i] ==> c in Everything(skills);
  }

  lemma DeclaredIsMerged(skills: Skills, before: Order, g: Grant)
    requires KeysApart(Everything(skills)) && Declared(Everything(skills), g)
    ensures Grants(Merged(skills, before), g)
  {
    hide PolicyKey, Compiled, Asks, Everything, Distinct, KeysApart, MergeAll;
    var fs: seq<Policies>, r := Fragments(skills, before), Rule(g.httpMethod, g.path);
    var c :| c in Everything(skills) && Reaches(c, g.host, g.port) && Asks(c, r);
    EverythingIs(skills);
    var i :| 0 <= i < |skills| && c in skills[i];
    PartKeysApart(skills, i);
    assert Declared(skills[i], g);
    KeptWhenApart(skills[i], before, g);
    var k :| k in fs[i] && fs[i][k].host == g.host && fs[i][k].port == g.port && r in fs[i][k].rules;
    MergedHas(fs, k, i);
    assert Offers(fs, k, r);
    SameAddress(skills, before, k, i);
  }

  /** With keys apart, everything under one key is one host and port. */
  lemma SameAddress(skills: Skills, before: Order, k: string, i: nat)
    requires KeysApart(Everything(skills)) && k in Merged(skills, before) && i < |skills|
      && k in Compiled(skills[i], before)
    ensures Merged(skills, before)[k].host == Compiled(skills[i], before)[k].host
      && Merged(skills, before)[k].port == Compiled(skills[i], before)[k].port
    ensures forall r :: r in Merged(skills, before)[k].rules <==> Offers(Fragments(skills, before), k, r)
  {
    hide PolicyKey, Compiled, Offers, Merged, Distinct, Everything;
    var j := MergedEndpointIs(skills, before, k);
    var c := OfCompiled(skills, before, k, i);
    var d := OfCompiled(skills, before, k, j);
  }

  lemma OfCompiled(skills: Skills, before: Order, k: string, i: nat) returns (c: Capability)
    requires i < |skills| && k in Compiled(skills[i], before)
    ensures c in Everything(skills)
      && Reaches(c, Compiled(skills[i], before)[k].host, Compiled(skills[i], before)[k].port)
    ensures PolicyKey(c.egress.value.host) == k
  {
    hide PolicyKey, Compiled, Grouped, EndpointOf;
    var n := EndpointIs(skills[i], before, k);
    var groups := Grouped(skills[i]);
    GroupedSorts(skills[i]);
    c := groups[n].caps[0];
    assert c in groups[n].caps && Holds(groups[n], skills[i]);
    EndpointAddress(groups[n], before);
    EverythingIs(skills);
  }

  lemma EndpointAddress(g: Group, before: Order)
    ensures EndpointOf(g, before).host == g.host && EndpointOf(g, before).port == g.port
  {
  }

  lemma MergedIsDeclared(skills: Skills, before: Order, g: Grant)
    requires KeysApart(Everything(skills)) && Grants(Merged(skills, before), g)
    ensures Declared(Everything(skills), g)
  {
    hide PolicyKey, Compiled, Merged, Everything, Offers, Distinct;
    var r := Rule(g.httpMethod, g.path);
    var k :| k in Merged(skills, before) && Merged(skills, before)[k].host == g.host
      && Merged(skills, before)[k].port == g.port && r in Merged(skills, before)[k].rules;
    var c := MergedRuleIsAsked(skills, before, k, r);
    var j := MergedEndpointIs(skills, before, k);
    var d := OfCompiled(skills, before, k, j);
    assert Reaches(c, d.egress.value.host, d.egress.value.port);
  }

  lemma UnionWhenApart(skills: Skills, before: Order)
    ensures (forall g :: Grants(Merged(skills, before), g) <==> Declared(Everything(skills), g)) <==>
      KeysApart(Everything(skills))
  {
    hide PolicyKey, Merged, Everything, Declared, Grants;
    var all := Everything(skills);
    if KeysApart(all) {
      forall g ensures Grants(Merged(skills, before), g) <==> Declared(all, g) {
        if Declared(all, g) { DeclaredIsMerged(skills, before, g); }
        if Grants(Merged(skills, before), g) { MergedIsDeclared(skills, before, g); }
      }
    }
    if forall g :: Grants(Merged(skills, before), g) <==> Declared(all, g) {
      forall c, d | c in all && d in all && c.egress.Some? && d.egress.Some?
        && PolicyKey(c.egress.value.host) == PolicyKey(d.egress.value.host)
        ensures Reaches(c, d.egress.value.host, d.egress.value.port)
      {
        KeptAddress(skills, before, c);
        KeptAddress(skills, before, d);
      }
    }
  }

  // ---------------------------------------------------------------- when the merge raises

  /** Of the inherited names only one has the shape of a policy key: the others hold a capital or
      two underscores in a row. */
  lemma OneInheritedKey(k: string)
    requires k in INHERITED
    ensures IsKeyText(k) <==> k == "constructor"
  {
    if k in {"isPrototypeOf", "toLocaleString", "toString"} {
      assert 'A' <= k[2] <= 'Z';
    } else if k == "hasOwnProperty" {
      assert k[3] == 'O';
    } else if k == "valueOf" {
      assert k[5] == 'O';
    } else if k == "propertyIsEnumerable" {
      assert k[8] == 'I';
    } else if k != "constructor" {
      assert k[0] == '_' && k[1] == '_';
    }
  }

  predicate HasConstructorHost(caps: seq<Capability>) {
    exists c :: c in caps && c.egress.Some? && PolicyKey(c.egress.value.host) == "constructor"
  }

  /** The merge raises exactly when some declared host's policy key is `constructor`. */
  lemma FailsExactly(skills: Skills, before: Order)
    ensures Fails(Fragments(skills, before)) <==> HasConstructorHost(Everything(skills))
  {
    hide PolicyKey, Compiled, Everything;
    var fs: seq<Policies> := Fragments(skills, before);
    EverythingIs(skills);
    if Fails(fs) {
      var i, k :| 0 <= i < |fs| && k in fs[i] && k in INHERITED;
      KeysAreDeclared(skills[i], before, k);
      var c :| c in skills[i] && c.egress.Some? && PolicyKey(c.egress.value.host) == k;
      PolicyKeyIsKeyText(c.egress.value.host);
      OneInheritedKey(k);
      assert c in Everything(skills);
    }
    if c :| c in Everything(skills) && c.egress.Some? && PolicyKey(c.egress.value.host) == "constructor" {
      var i :| 0 <= i < |skills| && c in skills[i];
      KeysAreDeclared(skills[i], before, "constructor");
      assert "constructor" in fs[i] && "constructor" in INHERITED;
    }
  }

  /** The merge returns, and grants exactly what the skills declare between them, if and only if no
      two declared hosts and ports share a policy key and no host has the key `constructor`. */
  lemma MergeIsTheUnionExactly(skills: Skills, before: Order)
    ensures var r := MergeResult(Fragments(skills, before));
      (r.Some? && forall g :: Grants(r.value, g) <==> Declared(Everything(skills), g))
      <==> KeysApart(Everything(skills)) && !HasConstructorHost(Everything(skills))
  {
    FailsExactly(skills, before);
    UnionWhenApart(skills, before);
    hide Fails, KeysApart, HasConstructorHost, Grants, Declared, Everything;
  }

  lemma KeptAddress(skills: Skills, before: Order, c: Capability)
    requires c in Everything(skills) && c.egress.Some?
    requires forall g :: Declared(Everything(skills), g) ==> Grants(Merged(skills, before), g)
    ensures var k := PolicyKey(c.egress.value.host);
      k in Merged(skills, before) && Reaches(c, Merged(skills, before)[k].host, Merged(skills, before)[k].port)
  {
    hide PolicyKey, Merged, Everything, Offers, Distinct, Compiled;
    var at, methods := c.egress.value, MethodsFor(c.verb, c.impact);
    var g := Grant(at.host, at.port, methods[0], at.path);
    assert methods[0] in methods;
    assert Declared(Everything(skills), g);
    var k :| k in Merged(skills, before) && Merged(skills, before)[k].host == g.host
      && Merged(skills, before)[k].port == g.port && Rule(g.httpMethod, g.path) in Merged(skills, before)[k].rules;
    var _ := MergedEndpointIs(skills, before, k);
  }

  lemma OneCapability(c: Capability, before: Order)
    requires c.egress.Some?
    ensures var at, k := c.egress.value, PolicyKey(c.egress.value.host);
      && k in Compiled([c], before) && Compiled([c], before)[k].host == at.host
      && Compiled([c], before)[k].port == at.port
      && Distinct(Compiled([c], before)[k].rules)
      && forall m :: m in MethodsFor(c.verb, c.impact) ==> Rule(m, at.path) in Compiled([c], before)[k].rules
  {
    hide PolicyKey, SortRules, RulesOf, Assembled, EndpointOf, Compiled;
    var k := PolicyKey(c.egress.value.host);
    assert c in [c];
    KeysAreDeclared([c], before, k);
    var i := EndpointIs([c], before, k);
    assert [c][..0] == [];
    assert Grouped([c]) == [Group(c.egress.value.host, c.egress.value.port, [c])];
    EndpointAddress(Grouped([c])[i], before);
    forall m | m in MethodsFor(c.verb, c.impact)
      ensures Rule(m, c.egress.value.path) in Compiled([c], before)[k].rules {
      assert Asks(c, Rule(m, c.egress.value.path));
    }
  }

  /** With two skills whose hosts share a key the merge is wider than the declarations: deleting is
      declared for the second host alone and granted on the first. */
  lemma LaterRulesLandOnTheEarlierHost(h1: string, p1: nat, h2: string, p2: nat, path: string, before: Order)
    requires PolicyKey(h1) == PolicyKey(h2) && (h1 != h2 || p1 != p2)
    ensures
      var c := Capability(READ, [], Some(Egress(h1, p1, path)));
      var d := Capability(DELETE, [], Some(Egress(h2, p2, path)));
      var skills := [[c], [d]];
      && Grants(Merged(skills, before), Grant(h1, p1, "DELETE", path))
      && !Declared(Everything(skills), Grant(h1, p1, "DELETE", path))
  {
    hide PolicyKey, Compiled, Distinct;
    var c, d := Capability(READ, [], Some(Egress(h1, p1, path))), Capability(DELETE, [], Some(Egress(h2, p2, path)));
    var skills, k := [[c], [d]], PolicyKey(h1);
    var fs: seq<Policies> := Fragments(skills, before);
    OneCapability(c, before);
    OneCapability(d, before);
    assert "DELETE" in MethodsFor(DELETE, []);
    assert Offers(fs, k, Rule("DELETE", path)) by { assert k in fs[1] && Rule("DELETE", path) in fs[1][k].rules; }
    MergedHas(fs, k, 0);
    var i := MergeAllIs(fs, k);
    EverythingIs(skills);
    assert forall x :: x in Everything(skills) ==> x == c || x == d;
  }
}
