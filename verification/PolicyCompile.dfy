/** From declared capabilities to the rules of a network policy. */
module PolicyCompile {
  import opened Wrappers
  import opened Taxonomy

  datatype Egress = Egress(host: string, port: nat, path: string)
  datatype Capability = Capability(verb: string, impact: seq<string>, egress: Maybe<Egress>)

  datatype Rule = Rule(httpMethod: string, path: string)
  datatype Endpoint = Endpoint(host: string, port: nat, rules: seq<Rule>)

  /** The capabilities of one host and port, in declaration order. */
  datatype Group = Group(host: string, port: nat, caps: seq<Capability>)

  /** What a policy lets through. */
  datatype Grant = Grant(host: string, port: nat, httpMethod: string, path: string)

  /** Network policies by key, one endpoint each. */
  type Policies = map<string, Endpoint>

  /** The comparison the sort is given; which one is immaterial here. */
  type Order = (string, string) -> bool

  // ---------------------------------------------------------------- keys

  function Printed(n: nat): string {
    if n < 10 then [(n as char) + '0'] else Printed(n / 10) + [((n % 10) as char) + '0']
  }

  function EndpointKey(host: string, port: nat): string {
    host + ":" + Printed(port)
  }

  predicate IsLetterOrDigit(c: char) {
    'a' <= c <= 'z' || 'A' <= c <= 'Z' || '0' <= c <= '9'
  }

  /** Every run of other characters becomes one underscore, and letters become lower case. */
  function PolicyKey(host: string): string {
    if |host| == 0 then ""
    else
      var front, c := PolicyKey(host[..|host|-1]), host[|host|-1];
      if 'A' <= c <= 'Z' then front + [c - 'A' + 'a']
      else if IsLetterOrDigit(c) then front + [c]
      else if |host| > 1 && !IsLetterOrDigit(host[|host|-2]) then front
      else front + "_"
  }

  /** A policy key holds lower-case letters, digits and lone underscores. */
  ghost predicate IsKeyText(key: string) {
    && (forall i :: 0 <= i < |key| ==> 'a' <= key[i] <= 'z' || '0' <= key[i] <= '9' || key[i] == '_')
    && (forall i :: 0 < i < |key| ==> key[i - 1] != '_' || key[i] != '_')
  }

  lemma {:induction false} PolicyKeyIsKeyText(host: string)
    ensures IsKeyText(PolicyKey(host))
    ensures |host| > 0 && IsLetterOrDigit(host[|host|-1]) ==>
      |PolicyKey(host)| > 0 && PolicyKey(host)[|PolicyKey(host)|-1] != '_'
    ensures |host| == 0 ==> PolicyKey(host) == ""
  {
    if |host| > 0 { PolicyKeyIsKeyText(host[..|host|-1]); }
  }

  /** Which character separates two parts of a host name does not reach the key. */
  lemma {:induction false} SeparatorsShareKey(a: string, x: char, y: char, b: string)
    requires !IsLetterOrDigit(x) && !IsLetterOrDigit(y)
    ensures PolicyKey(a + [x] + b) == PolicyKey(a + [y] + b)
  {
    var h, k := a + [x] + b, a + [y] + b;
    if |b| == 0 {
      assert h[..|h|-1] == a && k[..|k|-1] == a;
      assert |a| > 0 ==> h[|h|-2] == a[|a|-1] && k[|k|-2] == a[|a|-1];
    } else {
      SeparatorsShareKey(a, x, y, b[..|b|-1]);
      assert h[..|h|-1] == a + [x] + b[..|b|-1] && k[..|k|-1] == a + [y] + b[..|b|-1];
      assert |b| > 1 ==> h[|h|-2] == b[|b|-2] && k[|k|-2] == b[|b|-2];
    }
  }

  function Lower(c: char): char {
    if 'A' <= c <= 'Z' then c - 'A' + 'a' else c
  }

  /** Letters and digits go over into the key one by one, in lower case. */
  lemma {:induction false} KeyOfPlain(host: string)
    requires forall i :: 0 <= i < |host| ==> IsLetterOrDigit(host[i])
    ensures |PolicyKey(host)| == |host| && forall i :: 0 <= i < |host| ==> PolicyKey(host)[i] == Lower(host[i])
  {
    if |host| > 0 { KeyOfPlain(host[..|host|-1]); }
  }

  /** What stands on either side of one other character is joined by one underscore. */
  lemma {:induction false} KeyJoins(a: string, x: char, b: string)
    requires !IsLetterOrDigit(x) && (|a| > 0 ==> IsLetterOrDigit(a[|a|-1])) && (|b| > 0 ==> IsLetterOrDigit(b[0]))
    ensures PolicyKey(a + [x] + b) == PolicyKey(a) + "_" + PolicyKey(b)
  {
    var h := a + [x] + b;
    if |b| == 0 {
      assert h[..|h|-1] == a && h[|h|-1] == x && (|a| > 0 ==> h[|h|-2] == a[|a|-1]);
    } else {
      var front := b[..|b|-1];
      KeyJoins(a, x, front);
      assert h[..|h|-1] == a + [x] + front && h[|h|-1] == b[|b|-1];
      assert |b| > 1 ==> h[|h|-2] == b[|b|-2];
    }
  }

  /** A second one in a row adds nothing. */
  lemma {:induction false} KeyCollapses(a: string, x: char, y: char, b: string)
    requires !IsLetterOrDigit(x) && !IsLetterOrDigit(y)
    ensures PolicyKey(a + [x, y] + b) == PolicyKey(a + [x] + b)
  {
    var h, k := a + [x, y] + b, a + [x] + b;
    if |b| == 0 {
      assert h[..|h|-1] == k && h[|h|-1] == y && h[|h|-2] == x;
    } else {
      var front := b[..|b|-1];
      KeyCollapses(a, x, y, front);
      assert h[..|h|-1] == a + [x, y] + front && k[..|k|-1] == a + [x] + front;
      assert h[|h|-1] == b[|b|-1] == k[|k|-1];
      assert if |b| > 1 then h[|h|-2] == b[|b|-2] == k[|k|-2] else h[|h|-2] == y && k[|k|-2] == x;
    }
  }

  lemma KeyEnds(host: string, port: nat)
    ensures EndpointKey(host, port)
      == (if port < 10 then host + ":" else EndpointKey(host, port / 10)) + [((port % 10) as char) + '0']
  {
  }

  /** Whatever the host contains, the key of the grouping tells host and port apart. */
  lemma {:induction false} EndpointKeyInjective(h1: string, p1: nat, h2: string, p2: nat)
    requires EndpointKey(h1, p1) == EndpointKey(h2, p2)
    ensures h1 == h2 && p1 == p2
  {
    hide EndpointKey;
    KeyEnds(h1, p1);
    KeyEnds(h2, p2);
    var a, b := EndpointKey(h1, p1), EndpointKey(h2, p2);
    assert a[|a|-1] == ((p1 % 10) as char) + '0' && b[|b|-1] == ((p2 % 10) as char) + '0';
    assert a[..|a|-1] == if p1 < 10 then h1 + ":" else EndpointKey(h1, p1 / 10);
    assert b[..|b|-1] == if p2 < 10 then h2 + ":" else EndpointKey(h2, p2 / 10);
    if p1 < 10 && p2 < 10 {
      assert (h1 + ":")[..|h1|] == h1 && (h2 + ":")[..|h2|] == h2;
    } else if p1 >= 10 && p2 >= 10 {
      EndpointKeyInjective(h1, p1 / 10, h2, p2 / 10);
    } else if p1 < 10 {
      EndsInDigit(h1, h2, p2 / 10);
    } else {
      EndsInDigit(h2, h1, p1 / 10);
    }
  }

  lemma EndsInDigit(h1: string, h2: string, p: nat)
    ensures h1 + ":" != EndpointKey(h2, p)
  {
    hide EndpointKey;
    KeyEnds(h2, p);
    var b := EndpointKey(h2, p);
    assert b[|b|-1] == ((p % 10) as char) + '0';
    assert (h1 + ":")[|h1|] == ':';
  }

  // ---------------------------------------------------------------- grouping

  /** The group of that key, or the number of groups. */
  function FindGroup(groups: seq<Group>, key: string): (n: nat)
    ensures n <= |groups| && (forall k :: 0 <= k < n ==> EndpointKey(groups[k].host, groups[k].port) != key)
    ensures n < |groups| ==> EndpointKey(groups[n].host, groups[n].port) == key
  {
    if |groups| == 0 || EndpointKey(groups[0].host, groups[0].port) == key then 0 else FindGroup(groups[1..], key) + 1
  }

  function Place(groups: seq<Group>, c: Capability): seq<Group> {
    if c.egress == None then groups
    else
      var at := c.egress.value;
      var n := FindGroup(groups, EndpointKey(at.host, at.port));
      if n == |groups| then groups + [Group(at.host, at.port, [c])]
      else groups[n := groups[n].(caps := groups[n].caps + [c])]
  }

  function Grouped(caps: seq<Capability>): seq<Group> {
    if |caps| == 0 then [] else Place(Grouped(caps[..|caps|-1]), caps[|caps|-1])
  }

  method GroupByEndpoint(caps: seq<Capability>) returns (groups: seq<Group>)
    ensures groups == Grouped(caps)
  {
    groups := [];
    for i := 0 to |caps|
      invariant groups == Grouped(caps[..i])
    {
      assert caps[..i + 1][..i] == caps[..i];
      var c := caps[i];
      if c.egress == None { continue; }
      var at := c.egress.value;
      var n := FindGroup(groups, EndpointKey(at.host, at.port));
      ghost var expected := Place(groups, c);
      if n == |groups| {
        groups := groups + [Group(at.host, at.port, [])];
      }
      groups := groups[n := groups[n].(caps := groups[n].caps + [c])];
      assert [] + [c] == [c] && groups == expected;
    }
    assert caps[..|caps|] == caps;
  }

  /** The capability reaches that host and port. */
  predicate Reaches(c: Capability, host: string, port: nat) {
    c.egress.Some? && c.egress.value.host == host && c.egress.value.port == port
  }

  /** The group has exactly the capabilities that reach its host and port. */
  ghost predicate Holds(g: Group, caps: seq<Capability>) {
    forall c :: c in g.caps <==> c in caps && Reaches(c, g.host, g.port)
  }

  /** One group a host and port, none empty, holding exactly the capabilities that reach it. */
  ghost predicate Sorts(groups: seq<Group>, caps: seq<Capability>) {
    && (forall i, j :: 0 <= i < j < |groups| ==> groups[i].host != groups[j].host || groups[i].port != groups[j].port)
    && (forall i :: 0 <= i < |groups| ==> |groups[i].caps| > 0)
    && (forall i :: 0 <= i < |groups| ==> Holds(groups[i], caps))
    && (forall c :: c in caps && c.egress.Some? ==>
      exists i :: 0 <= i < |groups| && Reaches(c, groups[i].host, groups[i].port))
  }

  lemma HoldsNext(g: Group, caps: seq<Capability>, c: Capability)
    requires Holds(g, caps)
    ensures Holds(if Reaches(c, g.host, g.port) then g.(caps := g.caps + [c]) else g, caps + [c])
  {
  }

  lemma PlaceSorts(groups: seq<Group>, caps: seq<Capability>, c: Capability)
    requires Sorts(groups, caps)
    ensures Sorts(Place(groups, c), caps + [c])
  {
    hide EndpointKey, Holds;
    if c.egress.Some? {
      var at := c.egress.value;
      var n := FindGroup(groups, EndpointKey(at.host, at.port));
      if n < |groups| {
        EndpointKeyInjective(groups[n].host, groups[n].port, at.host, at.port);
      } else {
        assert forall d :: d in caps ==> !Reaches(d, at.host, at.port);
        assert Holds(Group(at.host, at.port, [c]), caps + [c]) by { NewHolds(caps, c); }
      }
      forall i | 0 <= i < |groups| ensures Holds(Place(groups, c)[i], caps + [c]) {
        HoldsNext(groups[i], caps, c);
        assert i != n ==> !Reaches(c, groups[i].host, groups[i].port);
      }
      PlacedReach(groups, caps, c);
    } else {
      forall i | 0 <= i < |groups| ensures Holds(groups[i], caps + [c]) { HoldsNext(groups[i], caps, c); }
    }
  }

  lemma NewHolds(caps: seq<Capability>, c: Capability)
    requires c.egress.Some?
    requires forall d :: d in caps ==> !Reaches(d, c.egress.value.host, c.egress.value.port)
    ensures Holds(Group(c.egress.value.host, c.egress.value.port, [c]), caps + [c])
  {
  }

  /** What had a group has one still, and the new capability gets one. */
  lemma PlacedReach(groups: seq<Group>, caps: seq<Capability>, c: Capability)
    requires c.egress.Some?
    requires forall d :: d in caps && d.egress.Some? ==>
      exists i :: 0 <= i < |groups| && Reaches(d, groups[i].host, groups[i].port)
    requires var n := FindGroup(groups, EndpointKey(c.egress.value.host, c.egress.value.port));
      n < |groups| ==> Reaches(c, groups[n].host, groups[n].port)
    ensures forall d :: d in caps + [c] && d.egress.Some? ==>
      exists i :: 0 <= i < |Place(groups, c)| && Reaches(d, Place(groups, c)[i].host, Place(groups, c)[i].port)
  {
    hide EndpointKey;
    var at := c.egress.value;
    var n := FindGroup(groups, EndpointKey(at.host, at.port));
    var after := Place(groups, c);
    assert forall i :: 0 <= i < |groups| ==> after[i].host == groups[i].host && after[i].port == groups[i].port;
    assert Reaches(c, after[n].host, after[n].port);
    forall d | d in caps + [c] && d.egress.Some?
      ensures exists i :: 0 <= i < |after| && Reaches(d, after[i].host, after[i].port)
    {
      if d in caps {
        var i :| 0 <= i < |groups| && Reaches(d, groups[i].host, groups[i].port);
        assert Reaches(d, after[i].host, after[i].port);
      }
    }
  }

  lemma {:induction false} GroupedSorts(caps: seq<Capability>)
    ensures Sorts(Grouped(caps), caps)
  {
    if |caps| > 0 {
      GroupedSorts(caps[..|caps|-1]);
      PlaceSorts(Grouped(caps[..|caps|-1]), caps[..|caps|-1], caps[|caps|-1]);
      assert caps[..|caps|-1] + [caps[|caps|-1]] == caps;
    }
  }

  // ---------------------------------------------------------------- the rules of one group

  function AddRule(rules: seq<Rule>, r: Rule): seq<Rule> {
    if r in rules then rules else rules + [r]
  }

  function AddMethods(rules: seq<Rule>, methods: seq<string>, path: string): seq<Rule> {
    if |methods| == 0 then rules
    else AddRule(AddMethods(rules, methods[..|methods|-1], path), Rule(methods[|methods|-1], path))
  }

  function RulesOf(caps: seq<Capability>): seq<Rule> {
    if |caps| == 0 then []
    else
      var front, c := RulesOf(caps[..|caps|-1]), caps[|caps|-1];
      if c.egress == None then front else AddMethods(front, MethodsFor(c.verb, c.impact), c.egress.value.path)
  }

  function Insert(rules: seq<Rule>, r: Rule, before: Order): seq<Rule> {
    if |rules| == 0 then [r]
    else
      var last := rules[|rules|-1];
      if before(r.httpMethod + r.path, last.httpMethod + last.path)
      then Insert(rules[..|rules|-1], r, before) + [last] else rules + [r]
  }

  /** A stable sort; `before` is a negative comparison. */
  function SortRules(rules: seq<Rule>, before: Order): seq<Rule> {
    if |rules| == 0 then [] else Insert(SortRules(rules[..|rules|-1], before), rules[|rules|-1], before)
  }

  ghost predicate Distinct<T>(s: seq<T>) {
    forall i, j :: 0 <= i < j < |s| ==> s[i] != s[j]
  }

  /** The capability asks for that rule. */
  predicate Asks(c: Capability, r: Rule) {
    c.egress.Some? && c.egress.value.path == r.path && r.httpMethod in MethodsFor(c.verb, c.impact)
  }

  lemma {:induction false} AddMethodsIs(rules: seq<Rule>, methods: seq<string>, path: string)
    ensures forall r :: r in AddMethods(rules, methods, path) <==>
      r in rules || (r.path == path && r.httpMethod in methods)
    ensures Distinct(rules) ==> Distinct(AddMethods(rules, methods, path))
  {
    if |methods| > 0 {
      var front, m := methods[..|methods|-1], methods[|methods|-1];
      AddMethodsIs(rules, front, path);
      assert forall x :: x in methods <==> x in front || x == m;
    }
  }

  lemma {:induction false} RulesOfIs(caps: seq<Capability>)
    ensures Distinct(RulesOf(caps))
    ensures forall r :: r in RulesOf(caps) <==> exists c :: c in caps && Asks(c, r)
  {
    if |caps| > 0 {
      var front, c := caps[..|caps|-1], caps[|caps|-1];
      RulesOfIs(front);
      if c.egress.Some? { AddMethodsIs(RulesOf(front), MethodsFor(c.verb, c.impact), c.egress.value.path); }
      assert forall r :: r in RulesOf(caps) <==> r in RulesOf(front) || Asks(c, r);
      hide RulesOf, Asks;
      assert caps == front + [c];
      forall r ensures r in RulesOf(caps) <==> exists d :: d in caps && Asks(d, r) { SomeAsks(front, c, r); }
    }
  }

  lemma SomeAsks(front: seq<Capability>, c: Capability, r: Rule)
    ensures (exists d :: d in front + [c] && Asks(d, r)) <==> (exists d :: d in front && Asks(d, r)) || Asks(c, r)
  {
    hide Asks;
    var caps := front + [c];
    if d :| d in front && Asks(d, r) { assert d in caps; }
    if Asks(c, r) { assert c in caps; }
  }

  ghost function Members<T>(s: seq<T>): multiset<T> {
    multiset(s)
  }

  lemma OneMore<T>(s: seq<T>, x: T)
    ensures Members(s + [x]) == Members(s) + multiset{x}
  {
  }

  lemma {:induction false} InsertIs(rules: seq<Rule>, r: Rule, before: Order)
    ensures Members(Insert(rules, r, before)) == Members(rules) + multiset{r}
  {
    OneMore(rules, r);
    if |rules| == 0 {
      assert rules + [r] == [r];
    } else {
      var front, last := rules[..|rules|-1], rules[|rules|-1];
      InsertIs(front, r, before);
      OneMore(front, last);
      OneMore(Insert(front, r, before), last);
      hide Members;
      assert rules == front + [last];
    }
  }

  lemma SortOneMore(front: seq<Rule>, last: Rule, before: Order)
    ensures SortRules([], before) == []
    ensures SortRules(front + [last], before) == Insert(SortRules(front, before), last, before)
  {
    hide Insert;
    assert (front + [last])[..|front|] == front;
  }

  lemma {:induction false} SortRulesIs(rules: seq<Rule>, before: Order)
    ensures Members(SortRules(rules, before)) == Members(rules)
  {
    if |rules| > 0 {
      hide Members, Insert, SortRules;
      var front, last := rules[..|rules|-1], rules[|rules|-1];
      assert rules == front + [last];
      SortRulesIs(front, before);
      SortOneMore(front, last, before);
      InsertIs(SortRules(front, before), last, before);
      OneMore(front, last);
    }
  }

  /** A comparison a sort can rely on: no two strings come before each other, and what is not out of
      order stays so through a third. */
  ghost predicate IsOrder(before: Order) {
    && (forall a, b :: before(a, b) ==> !before(b, a))
    && (forall a, b, c :: !before(b, a) && !before(c, b) ==> !before(c, a))
  }

  function SortKey(r: Rule): string {
    r.httpMethod + r.path
  }

  /** No rule comes before one that stands ahead of it. */
  ghost predicate InOrder(rules: seq<Rule>, before: Order) {
    forall i, j :: 0 <= i < j < |rules| ==> !before(SortKey(rules[j]), SortKey(rules[i]))
  }

  lemma {:induction false} InsertInOrder(rules: seq<Rule>, r: Rule, before: Order)
    requires IsOrder(before) && InOrder(rules, before)
    ensures InOrder(Insert(rules, r, before), before)
    ensures forall x :: x in Insert(rules, r, before) <==> x in rules || x == r
  {
    if |rules| > 0 {
      var front, last := rules[..|rules|-1], rules[|rules|-1];
      InsertInOrder(front, r, before);
      assert rules == front + [last];
      if before(SortKey(r), SortKey(last)) {
        var out := Insert(front, r, before);
        assert Insert(rules, r, before) == out + [last];
        forall i | 0 <= i < |out| ensures !before(SortKey(last), SortKey(out[i])) {
          assert out[i] in front || out[i] == r;
        }
      }
    }
  }

  /** The rules come out sorted by method and path. */
  lemma {:induction false} SortRulesInOrder(rules: seq<Rule>, before: Order)
    requires IsOrder(before)
    ensures InOrder(SortRules(rules, before), before)
  {
    if |rules| > 0 {
      SortRulesInOrder(rules[..|rules|-1], before);
      InsertInOrder(SortRules(rules[..|rules|-1], before), rules[|rules|-1], before);
      hide Insert, IsOrder, InOrder;
    }
  }

  lemma SameMembers<T>(a: seq<T>, b: seq<T>)
    requires Members(a) == Members(b)
    ensures forall x :: x in a <==> x in b
    ensures Distinct(a) ==> Distinct(b)
  {
    assert forall x :: x in a <==> x in multiset(a);
    assert forall x :: x in b <==> x in multiset(b);
    if Distinct(a) {
      forall i, j | 0 <= i < j < |b| ensures b[i] != b[j] {
        if b[i] == b[j] {
          assert b == b[..j] + [b[j]] + b[j + 1..] && b[i] in b[..j];
          assert multiset(b)[b[j]] >= 2;
          OnceEach(a, b[j]);
        }
      }
    }
  }

  lemma {:induction false} OnceEach<T>(a: seq<T>, x: T)
    requires Distinct(a)
    ensures multiset(a)[x] <= 1
  {
    if |a| > 0 {
      OnceEach(a[1..], x);
      assert a == [a[0]] + a[1..];
      if a[0] == x { assert x !in a[1..]; }
    }
  }

  /** Methods hold no space, so the signature of the `seen` set stands for the rule. */
  function Signature(r: Rule): string {
    r.httpMethod + " " + r.path
  }

  predicate IsMethodName(m: string) {
    m in ["GET", "POST", "PUT", "PATCH", "DELETE"]
  }

  lemma SignatureInjective(a: Rule, b: Rule)
    requires IsMethodName(a.httpMethod) && IsMethodName(b.httpMethod) && Signature(a) == Signature(b)
    ensures a == b
  {
    var s, t := Signature(a), Signature(b);
    assert forall k :: 0 <= k < |a.httpMethod| ==> s[k] == a.httpMethod[k] != ' ';
    assert forall k :: 0 <= k < |b.httpMethod| ==> t[k] == b.httpMethod[k] != ' ';
    assert s[|a.httpMethod|] == ' ' && t[|b.httpMethod|] == ' ';
    assert |a.httpMethod| == |b.httpMethod|;
    assert s[..|a.httpMethod|] == a.httpMethod && s[|a.httpMethod| + 1..] == a.path;
    assert t[..|b.httpMethod|] == b.httpMethod && t[|b.httpMethod| + 1..] == b.path;
  }

  ghost predicate Mirrors(seen: set<string>, rules: seq<Rule>) {
    && (forall r :: r in rules ==> IsMethodName(r.httpMethod) && Signature(r) in seen)
    && (forall s :: s in seen ==> exists r :: r in rules && Signature(r) == s)
  }

  lemma SeenIsIn(seen: set<string>, rules: seq<Rule>, r: Rule)
    requires Mirrors(seen, rules) && IsMethodName(r.httpMethod)
    ensures Signature(r) in seen <==> r in rules
    ensures r !in rules ==> Mirrors(seen + {Signature(r)}, rules + [r])
  {
    if Signature(r) in seen {
      var q :| q in rules && Signature(q) == Signature(r);
      SignatureInjective(q, r);
    }
  }

  lemma NothingSeen()
    ensures Mirrors({}, [])
  {
  }

  method CollectRules(caps: seq<Capability>) returns (rules: seq<Rule>)
    ensures rules == RulesOf(caps)
  {
    hide Mirrors, Signature;
    rules := [];
    var seen: set<string> := {};
    NothingSeen();
    for i := 0 to |caps|
      invariant rules == RulesOf(caps[..i]) && Mirrors(seen, rules)
    {
      assert caps[..i + 1][..i] == caps[..i];
      var c := caps[i];
      if c.egress == None { continue; }
      var methods, path := MethodsFor(c.verb, c.impact), c.egress.value.path;
      ghost var start := rules;
      for j := 0 to |methods|
        invariant rules == AddMethods(start, methods[..j], path) && Mirrors(seen, rules)
      {
        assert methods[..j + 1][..j] == methods[..j];
        var r := Rule(methods[j], path);
        SeenIsIn(seen, rules, r);
        if Signature(r) in seen { continue; }
        seen := seen + {Signature(r)};
        rules := rules + [r];
      }
      assert methods[..|methods|] == methods;
    }
    assert caps[..|caps|] == caps;
  }

  // ---------------------------------------------------------------- the fragment

  function EndpointOf(g: Group, before: Order): Endpoint {
    Endpoint(g.host, g.port, SortRules(RulesOf(g.caps), before))
  }

  /** A later group of the same key takes the place of an earlier one. */
  function Assembled(groups: seq<Group>, before: Order): Policies {
    if |groups| == 0 then map[]
    else
      var g := groups[|groups|-1];
      Assembled(groups[..|groups|-1], before)[PolicyKey(g.host) := EndpointOf(g, before)]
  }

  function Compiled(caps: seq<Capability>, before: Order): Policies {
    Assembled(Grouped(caps), before)
  }

  method CompileFragment(caps: seq<Capability>, before: Order) returns (policies: Policies)
    ensures policies == Compiled(caps, before)
  {
    hide PolicyKey, Grouped, RulesOf;
    var groups := GroupByEndpoint(caps);
    policies := map[];
    for i := 0 to |groups|
      invariant policies == Assembled(groups[..i], before)
    {
      assert groups[..i + 1][..i] == groups[..i];
      var rules := CollectRules(groups[i].caps);
      var endpoint := Endpoint(groups[i].host, groups[i].port, SortRules(rules, before));
      policies := policies[PolicyKey(groups[i].host) := endpoint];
    }
    assert groups[..|groups|] == groups;
  }

  // ---------------------------------------------------------------- what the fragment grants

  ghost predicate Grants(policies: Policies, g: Grant) {
    exists k :: k in policies && policies[k].host == g.host && policies[k].port == g.port
      && Rule(g.httpMethod, g.path) in policies[k].rules
  }

  /** Some capability is declared for that request. */
  ghost predicate Declared(caps: seq<Capability>, g: Grant) {
    exists c :: c in caps && Reaches(c, g.host, g.port) && Asks(c, Rule(g.httpMethod, g.path))
  }

  /** No two declared hosts and ports share a policy key. */
  ghost predicate KeysApart(caps: seq<Capability>) {
    forall c, d :: c in caps && d in caps && c.egress.Some? && d.egress.Some?
      && PolicyKey(c.egress.value.host) == PolicyKey(d.egress.value.host)
      ==> Reaches(c, d.egress.value.host, d.egress.value.port)
  }

  ghost predicate IsLast(groups: seq<Group>, i: nat)
    requires i < |groups|
  {
    forall j :: i < j < |groups| ==> PolicyKey(groups[j].host) != PolicyKey(groups[i].host)
  }

  lemma {:induction false} AssembledHas(groups: seq<Group>, before: Order, i: nat)
    requires i < |groups| && IsLast(groups, i)
    ensures PolicyKey(groups[i].host) in Assembled(groups, before)
      && Assembled(groups, before)[PolicyKey(groups[i].host)] == EndpointOf(groups[i], before)
  {
    hide PolicyKey, EndpointOf;
    if i < |groups| - 1 {
      AssembledHas(groups[..|groups|-1], before, i);
      assert PolicyKey(groups[|groups|-1].host) != PolicyKey(groups[i].host);
    }
  }

  lemma {:induction false} AssembledFrom(groups: seq<Group>, before: Order, k: string) returns (i: nat)
    requires k in Assembled(groups, before)
    ensures i < |groups| && IsLast(groups, i) && PolicyKey(groups[i].host) == k
      && Assembled(groups, before)[k] == EndpointOf(groups[i], before)
  {
    hide PolicyKey, EndpointOf;
    i := |groups| - 1;
    if k != PolicyKey(groups[i].host) {
      i := AssembledFrom(groups[..|groups|-1], before, k);
    }
  }

  lemma EndpointAsks(g: Group, before: Order)
    ensures Distinct(EndpointOf(g, before).rules)
    ensures forall r :: r in EndpointOf(g, before).rules <==> exists c :: c in g.caps && Asks(c, r)
  {
    RulesOfIs(g.caps);
    SortRulesIs(RulesOf(g.caps), before);
    SameMembers(RulesOf(g.caps), EndpointOf(g, before).rules);
  }

  /** Every endpoint is the last group of its key, with its own key and no rule twice. */
  lemma EndpointIs(caps: seq<Capability>, before: Order, k: string) returns (i: nat)
    requires k in Compiled(caps, before)
    ensures i < |Grouped(caps)| && IsLast(Grouped(caps), i)
    ensures Compiled(caps, before)[k] == EndpointOf(Grouped(caps)[i], before)
      && PolicyKey(Compiled(caps, before)[k].host) == k
    ensures Distinct(Compiled(caps, before)[k].rules)
    ensures forall r :: r in Compiled(caps, before)[k].rules <==>
      exists c :: c in caps && Reaches(c, Compiled(caps, before)[k].host, Compiled(caps, before)[k].port) && Asks(c, r)
  {
    hide PolicyKey, Asks, Reaches, SortRules, RulesOf, Distinct, Grouped, Assembled;
    i := AssembledFrom(Grouped(caps), before, k);
    GroupedSorts(caps);
    EndpointAsks(Grouped(caps)[i], before);
  }

  /** A host and port with a group that no later group of the same key replaces. */
  ghost predicate Survives(groups: seq<Group>, host: string, port: nat) {
    exists i :: 0 <= i < |groups| && IsLast(groups, i) && groups[i].host == host && groups[i].port == port
  }

  /** What a compiled fragment lets through, exactly: what is declared for a host and port that no
      later group of the same key has replaced. */
  lemma CompiledGrantsExactly(caps: seq<Capability>, before: Order, g: Grant)
    ensures Grants(Compiled(caps, before), g) <==>
      Declared(caps, g)
      && Survives(Grouped(caps), g.host, g.port)
  {
    hide PolicyKey, Asks, SortRules, RulesOf, Distinct, Grouped, Assembled, IsLast;
    var policies := Compiled(caps, before);
    if Grants(policies, g) {
      var k :| k in policies && policies[k].host == g.host && policies[k].port == g.port
        && Rule(g.httpMethod, g.path) in policies[k].rules;
      var i := EndpointIs(caps, before, k);
    }
    var groups := Grouped(caps);
    if i :| 0 <= i < |groups| && IsLast(groups, i) && groups[i].host == g.host && groups[i].port == g.port {
      AssembledHas(groups, before, i);
      var k := PolicyKey(groups[i].host);
      assert policies[k] == EndpointOf(groups[i], before);
      var _ := EndpointIs(caps, before, k);
    }
  }

  /** Where every write carries an impact, the policy grants GET and nothing else. */
  lemma ImpactfulPathsOnlyGet(caps: seq<Capability>, before: Order, g: Grant)
    requires Grants(Compiled(caps, before), g)
    requires forall c :: c in caps && Reaches(c, g.host, g.port) && c.egress.value.path == g.path && IsWrite(c.verb) ==>
      RequiresConsent(c.verb, c.impact)
    ensures g.httpMethod == "GET"
  {
    CompiledGrantsExactly(caps, before, g);
  }

  lemma AllLast(groups: seq<Group>, caps: seq<Capability>, i: nat)
    requires Sorts(groups, caps) && KeysApart(caps) && i < |groups|
    ensures IsLast(groups, i)
  {
    hide PolicyKey;
    forall j | i < j < |groups| ensures PolicyKey(groups[j].host) != PolicyKey(groups[i].host) {
      var c, d := groups[i].caps[0], groups[j].caps[0];
      assert c in groups[i].caps && d in groups[j].caps;
      assert Holds(groups[i], caps) && Holds(groups[j], caps);
    }
  }

  lemma KeptIsLast(caps: seq<Capability>, before: Order, c: Capability) returns (i: nat)
    requires c in caps && c.egress.Some?
    requires forall g :: Declared(caps, g) ==> Grants(Compiled(caps, before), g)
    ensures i < |Grouped(caps)| && IsLast(Grouped(caps), i) && Reaches(c, Grouped(caps)[i].host, Grouped(caps)[i].port)
  {
    hide PolicyKey, SortRules, RulesOf, Grouped, Assembled;
    var at, methods := c.egress.value, MethodsFor(c.verb, c.impact);
    var g := Grant(at.host, at.port, methods[0], at.path);
    assert methods[0] in methods;
    assert Declared(caps, g);
    CompiledGrantsExactly(caps, before, g);
    i :| 0 <= i < |Grouped(caps)| && IsLast(Grouped(caps), i) && Grouped(caps)[i].host == g.host
      && Grouped(caps)[i].port == g.port;
  }

  lemma KeptWhenApart(caps: seq<Capability>, before: Order, g: Grant)
    requires KeysApart(caps) && Declared(caps, g)
    ensures Grants(Compiled(caps, before), g)
  {
    hide PolicyKey, SortRules, RulesOf, Grouped, Assembled, KeysApart, Compiled, IsLast, Holds;
    var groups := Grouped(caps);
    GroupedSorts(caps);
    var c :| c in caps && Reaches(c, g.host, g.port) && Asks(c, Rule(g.httpMethod, g.path));
    var i :| 0 <= i < |groups| && Reaches(c, groups[i].host, groups[i].port);
    AllLast(groups, caps, i);
    assert groups[i].host == g.host && groups[i].port == g.port;
    assert Survives(groups, g.host, g.port);
    CompiledGrantsExactly(caps, before, g);
  }

  /** Nothing declared is lost exactly when the keys tell the declared hosts and ports apart. */
  lemma CompileKeepsExactly(caps: seq<Capability>, before: Order)
    ensures (forall g :: Declared(caps, g) ==> Grants(Compiled(caps, before), g)) <==> KeysApart(caps)
  {
    hide PolicyKey, SortRules, RulesOf, Grouped, Assembled, Declared, Grants, Compiled;
    var groups := Grouped(caps);
    if KeysApart(caps) {
      forall g | Declared(caps, g) ensures Grants(Compiled(caps, before), g) { KeptWhenApart(caps, before, g); }
    }
    if forall g :: Declared(caps, g) ==> Grants(Compiled(caps, before), g) {
      forall c, d | c in caps && d in caps && c.egress.Some? && d.egress.Some?
        && PolicyKey(c.egress.value.host) == PolicyKey(d.egress.value.host)
        ensures Reaches(c, d.egress.value.host, d.egress.value.port)
      {
        var i := KeptIsLast(caps, before, c);
        var j := KeptIsLast(caps, before, d);
      }
    }
  }

  /** Two declared hosts and ports with one policy key: the later one takes the earlier one's place. */
  lemma SharedKeyReplaces(h1: string, p1: nat, h2: string, p2: nat, path: string, before: Order)
    requires PolicyKey(h1) == PolicyKey(h2) && (h1 != h2 || p1 != p2)
    ensures
      var c := Capability(READ, [], Some(Egress(h1, p1, path)));
      var d := Capability(READ, [], Some(Egress(h2, p2, path)));
      var caps := [c, d];
      && Declared(caps, Grant(h1, p1, "GET", path)) && !Grants(Compiled(caps, before), Grant(h1, p1, "GET", path))
      && Grants(Compiled(caps, before), Grant(h2, p2, "GET", path))
  {
    hide PolicyKey, SortRules, RulesOf, Assembled, EndpointKey;
    var c, d := Capability(READ, [], Some(Egress(h1, p1, path))), Capability(READ, [], Some(Egress(h2, p2, path)));
    var caps := [c, d];
    assert caps[..1] == [c] && [c][..0] == [];
    assert Grouped([c]) == [Group(h1, p1, [c])];
    if EndpointKey(h1, p1) == EndpointKey(h2, p2) { EndpointKeyInjective(h1, p1, h2, p2); }
    assert Grouped(caps) == [Group(h1, p1, [c]), Group(h2, p2, [d])];
    assert c in caps && d in caps;
    var g, h := Grant(h1, p1, "GET", path), Grant(h2, p2, "GET", path);
    assert "GET" in MethodsFor(READ, []);
    assert Declared(caps, g) && Declared(caps, h);
    assert PolicyKey(Grouped(caps)[1].host) == PolicyKey(Grouped(caps)[0].host);
    assert IsLast(Grouped(caps), 1) && !IsLast(Grouped(caps), 0);
    CompiledGrantsExactly(caps, before, g);
    CompiledGrantsExactly(caps, before, h);
  }

  // ---------------------------------------------------------------- which keys a fragment has

  lemma {:induction false} AssembledKey(groups: seq<Group>, before: Order, i: nat)
    requires i < |groups|
    ensures PolicyKey(groups[i].host) in Assembled(groups, before)
  {
    hide PolicyKey;
    if i < |groups| - 1 { AssembledKey(groups[..|groups|-1], before, i); }
  }

  /** The keys of a fragment are the keys of the declared hosts. */
  lemma KeysAreDeclared(caps: seq<Capability>, before: Order, k: string)
    ensures k in Compiled(caps, before) <==>
      exists c :: c in caps && c.egress.Some? && PolicyKey(c.egress.value.host) == k
  {
    hide PolicyKey, Grouped, Assembled, EndpointOf;
    var groups := Grouped(caps);
    GroupedSorts(caps);
    if k in Compiled(caps, before) {
      var i := AssembledFrom(groups, before, k);
      var c := groups[i].caps[0];
      assert c in groups[i].caps && Holds(groups[i], caps);
    }
    if c :| c in caps && c.egress.Some? && PolicyKey(c.egress.value.host) == k {
      var i :| 0 <= i < |groups| && Reaches(c, groups[i].host, groups[i].port);
      AssembledKey(groups, before, i);
    }
  }
}
