/** Every text the reader accepts is the rendering of a tree: the spellings are all there is. */
module JsonReading {
  import opened Wrappers
  import opened JsonText
  import opened JsonSpelling

  lemma {:induction false} LeadingPad(t: Text) returns (pad: Text)
    ensures IsPad(pad) && t == pad + SkipSpace(t)
  {
    if |t| > 0 && IsSpace(t[0]) {
      var rest := LeadingPad(t[1..]);
      pad := [t[0]] + rest;
    } else {
      pad := [];
    }
  }

  lemma PieceAt(t: Text) returns (p: Piece)
    requires |t| > 0 && ReadUnit(t).Done?
    ensures OkPiece(p) && PieceValue(p) == ReadUnit(t).value && t == PieceText(p) + ReadUnit(t).rest
    ensures t[0] != QUOTE
  {
    if t[0] != BACKSLASH {
      p := Raw(t[0]);
    } else if t[1] == 117 {
      p := Hex(t[2], t[3], t[4], t[5]);
      assert t[2..][0] == t[2] && t[2..][1] == t[3] && t[2..][2] == t[4] && t[2..][3] == t[5];
    } else {
      p := Short(t[1]);
    }
  }

  /** The body of a string whose opening quote has just been read. */
  lemma {:induction false} BodyAt(t: Text) returns (ps: seq<Piece>)
    requires ReadString(t).Done?
    ensures OkBody(ps) && BodyValue(ps) == ReadString(t).value && t == BodyTo(ps, [QUOTE] + ReadString(t).rest)
  {
    if t[0] == QUOTE {
      ps := [];
    } else {
      var p := PieceAt(t);
      var rest := BodyAt(ReadUnit(t).rest);
      ps := [p] + rest;
      assert ps[1..] == rest;
    }
  }

  lemma HeadAndTail(t: Text)
    requires |t| > 0
    ensures t == [t[0]] + t[1..]
  {
  }

  lemma FrontAndBack(t: Text, n: nat)
    requires n <= |t|
    ensures t == t[..n] + t[n..]
  {
  }

  /** The tree whose rendering was read: well-formed, of the value read, and exactly that text. */
  lemma {:induction false} TreeAt(t: Text) returns (x: Tree)
    requires ReadValue(t).Done?
    ensures Ok(x) && Value(x) == ReadValue(t).value && t == RenderTo(x, ReadValue(t).rest)
    decreases |t|, 0
  {
    hide IsNumber, ReadString, BodyTo;
    if t[0] == QUOTE {
      var body := BodyAt(t[1..]);
      x := TStr(body);
      HeadAndTail(t);
    } else if t[0] == OPEN_LIST {
      x := ListAt(t);
    } else if t[0] == OPEN {
      x := ObjectAt(t);
    } else {
      x := PlainAt(t);
    }
  }

  lemma PlainAt(t: Text) returns (x: Tree)
    requires |t| > 0 && t[0] != QUOTE && t[0] != OPEN_LIST && t[0] != OPEN && ReadValue(t).Done?
    ensures Ok(x) && Value(x) == ReadValue(t).value && t == RenderTo(x, ReadValue(t).rest)
  {
    hide IsNumber;
    if StartsWith(t, NULL) {
      x := TNull;
    } else if StartsWith(t, TRUE) {
      x := TBool(true);
    } else if StartsWith(t, FALSE) {
      x := TBool(false);
    } else {
      x := TNum(t[..NumberRun(t)]);
      FrontAndBack(t, NumberRun(t));
    }
  }

  lemma {:induction false} ListAt(t: Text) returns (x: Tree)
    requires |t| > 0 && t[0] == OPEN_LIST && ReadValue(t).Done?
    ensures Ok(x) && Value(x) == ReadValue(t).value && t == RenderTo(x, ReadValue(t).rest)
    decreases |t|, 0, 0
  {
    ReadList(t);
    var s := SkipSpace(t[1..]);
    var pad := LeadingPad(t[1..]);
    HeadAndTail(t);
    hide ReadValue, ReadItems, SkipSpace, IsPad, Ok, Value, RenderTo, ItemsTo, OkItems, ItemValues;
    if |s| > 0 && s[0] == CLOSE_LIST {
      x := TArr(pad, []);
      HeadAndTail(s);
      ListIs(pad, [], s[1..]);
    } else {
      var items := ItemsAt(pad, s);
      x := TArr([], items);
      ListIs([], items, ReadItems(s).rest);
    }
  }

  lemma ReadList(t: Text)
    requires |t| > 0 && t[0] == OPEN_LIST && ReadValue(t).Done?
    ensures var s := SkipSpace(t[1..]);
      if |s| > 0 && s[0] == CLOSE_LIST then ReadValue(t) == Done(Arr([]), s[1..])
      else ReadItems(s).Done? && ReadValue(t) == Done(Arr(ReadItems(s).value), ReadItems(s).rest)
  {
  }

  lemma ListIs(pad: Text, items: seq<Item>, rest: Text)
    requires IsPad(pad) && OkItems(items)
    ensures Ok(TArr(pad, items)) && Value(TArr(pad, items)) == Arr(ItemValues(items))
    ensures RenderTo(TArr(pad, items), rest) == [OPEN_LIST] +
      if |items| == 0 then pad + ([CLOSE_LIST] + rest) else ItemsTo(items, [CLOSE_LIST] + rest)
    ensures IsPad([]) && (|items| == 0 ==> OkItems(items) && ItemValues(items) == [])
  {
  }

  lemma {:induction false} ObjectAt(t: Text) returns (x: Tree)
    requires |t| > 0 && t[0] == OPEN && ReadValue(t).Done?
    ensures x.TObj? && Ok(x) && Value(x) == ReadValue(t).value && t == RenderTo(x, ReadValue(t).rest)
    decreases |t|, 0, 0
  {
    ReadObject(t);
    var s := SkipSpace(t[1..]);
    var pad := LeadingPad(t[1..]);
    HeadAndTail(t);
    hide ReadValue, ReadMembers, SkipSpace, IsPad, Ok, Value, RenderTo, EntriesTo, OkEntries, EntryValues;
    if |s| > 0 && s[0] == CLOSE {
      x := TObj(pad, []);
      HeadAndTail(s);
      ObjectIs(pad, [], s[1..]);
    } else {
      var es := EntriesAt(pad, s);
      x := TObj([], es);
      ObjectIs([], es, ReadMembers(s).rest);
    }
  }

  lemma ReadObject(t: Text)
    requires |t| > 0 && t[0] == OPEN && ReadValue(t).Done?
    ensures var s := SkipSpace(t[1..]);
      if |s| > 0 && s[0] == CLOSE then ReadValue(t) == Done(Obj([]), s[1..])
      else ReadMembers(s).Done? && ReadValue(t) == Done(Obj(ReadMembers(s).value), ReadMembers(s).rest)
  {
  }

  lemma ObjectIs(pad: Text, es: seq<Entry>, rest: Text)
    requires IsPad(pad) && OkEntries(es)
    ensures Ok(TObj(pad, es)) && Value(TObj(pad, es)) == Obj(EntryValues(es))
    ensures RenderTo(TObj(pad, es), rest) == [OPEN] +
      if |es| == 0 then pad + ([CLOSE] + rest) else EntriesTo(es, [CLOSE] + rest)
    ensures IsPad([]) && (|es| == 0 ==> OkEntries(es) && EntryValues(es) == [])
  {
  }

  /** Items from the first one on, with the space that stood before it. */
  lemma {:induction false} ItemsAt(pre: Text, t: Text) returns (items: seq<Item>)
    requires IsPad(pre) && ReadItems(t).Done?
    ensures |items| > 0 && OkItems(items) && ItemValues(items) == ReadItems(t).value
    ensures pre + t == ItemsTo(items, [CLOSE_LIST] + ReadItems(t).rest)
    decreases |t|, 1
  {
    ReadItemsIs(t);
    var tree := TreeAt(t);
    var rest := ReadValue(t).rest;
    var s := SkipSpace(rest);
    var post := LeadingPad(rest);
    HeadAndTail(s);
    var i := Item(pre, tree, post);
    hide ReadValue, ReadItems, SkipSpace, RenderTo, ItemsTo, OkItems, ItemValues, Ok, Value, IsPad;
    if s[0] == CLOSE_LIST {
      items := [i];
      assert s == [CLOSE_LIST] + ReadItems(t).rest;
      ItemsOne(i, s);
    } else {
      var next := LeadingPad(s[1..]);
      var more := ItemsAt(next, SkipSpace(s[1..]));
      items := [i] + more;
      assert s == [COMMA] + ItemsTo(more, [CLOSE_LIST] + ReadItems(t).rest);
      ItemsCons(i, more, [CLOSE_LIST] + ReadItems(t).rest);
    }
  }

  lemma ReadItemsIs(t: Text)
    requires ReadItems(t).Done?
    ensures ReadValue(t).Done?
    ensures var v, s := ReadValue(t).value, SkipSpace(ReadValue(t).rest);
      && |s| > 0 && |s| < |t| && (s[0] == CLOSE_LIST || s[0] == COMMA)
      && (s[0] == CLOSE_LIST ==> ReadItems(t) == Done([v], s[1..]))
      && (s[0] == COMMA ==>
            var more := ReadItems(SkipSpace(s[1..]));
            more.Done? && ReadItems(t) == Done([v] + more.value, more.rest))
  {
  }

  lemma ItemsOne(i: Item, rest: Text)
    requires IsPad(i.pre) && Ok(i.tree) && IsPad(i.post)
    ensures OkItems([i]) && ItemValues([i]) == [Value(i.tree)]
    ensures ItemsTo([i], rest) == i.pre + RenderTo(i.tree, i.post + rest)
  {
    assert [i][1..] == [];
  }

  lemma ItemsCons(i: Item, more: seq<Item>, rest: Text)
    requires IsPad(i.pre) && Ok(i.tree) && IsPad(i.post) && OkItems(more) && |more| > 0
    ensures OkItems([i] + more) && ItemValues([i] + more) == [Value(i.tree)] + ItemValues(more)
    ensures ItemsTo([i] + more, rest) == i.pre + RenderTo(i.tree, i.post + ([COMMA] + ItemsTo(more, rest)))
  {
    var items := [i] + more;
    assert items[1..] == more;
  }

  /** A member from its opening quote on, in front of `after`. */
  function EntryTo(e: Entry, after: Text): Text {
    [QUOTE] + BodyTo(e.key, [QUOTE] + (e.mid + ([COLON] + (e.gap + RenderTo(e.tree, e.post + after)))))
  }

  predicate OkEntry(e: Entry) {
    IsPad(e.pre) && OkBody(e.key) && IsPad(e.mid) && IsPad(e.gap) && Ok(e.tree) && IsPad(e.post)
  }

  lemma {:induction false} EntryAt(pre: Text, t: Text) returns (e: Entry)
    requires IsPad(pre) && ReadMember(t).Done?
    ensures e.pre == pre && OkEntry(e) && Member(BodyValue(e.key), Value(e.tree)) == ReadMember(t).value
    ensures t == EntryTo(e, ReadMember(t).rest)
    decreases |t|, 1
  {
    ReadMemberIs(t);
    var key := BodyAt(t[1..]);
    var afterKey := ReadString(t[1..]).rest;
    var s := SkipSpace(afterKey);
    var mid := LeadingPad(afterKey);
    var gap := LeadingPad(s[1..]);
    var tree := TreeAt(SkipSpace(s[1..]));
    var rest := ReadValue(SkipSpace(s[1..])).rest;
    var post := LeadingPad(rest);
    HeadAndTail(t);
    HeadAndTail(s);
    hide ReadMember, ReadValue, ReadString, SkipSpace, RenderTo, BodyTo, Ok, Value, IsPad, OkBody, BodyValue;
    e := Entry(pre, key, mid, gap, tree, post);
    assert SkipSpace(s[1..]) == RenderTo(tree, post + ReadMember(t).rest);
    assert afterKey == mid + ([COLON] + (gap + RenderTo(tree, post + ReadMember(t).rest)));
  }

  lemma ReadMemberIs(t: Text)
    requires ReadMember(t).Done?
    ensures |t| > 0 && t[0] == QUOTE && ReadString(t[1..]).Done?
    ensures var s := SkipSpace(ReadString(t[1..]).rest);
      && |s| > 0 && s[0] == COLON && |SkipSpace(s[1..])| < |t| && ReadValue(SkipSpace(s[1..])).Done?
      && var r := ReadValue(SkipSpace(s[1..]));
      ReadMember(t) == Done(Member(ReadString(t[1..]).value, r.value), SkipSpace(r.rest))
  {
  }

  lemma {:induction false} EntriesAt(pre: Text, t: Text) returns (es: seq<Entry>)
    requires IsPad(pre) && ReadMembers(t).Done?
    ensures |es| > 0 && OkEntries(es) && EntryValues(es) == ReadMembers(t).value
    ensures pre + t == EntriesTo(es, [CLOSE] + ReadMembers(t).rest)
    decreases |t|, 2
  {
    ReadMembersIs(t);
    var e := EntryAt(pre, t);
    var s := ReadMember(t).rest;
    HeadAndTail(s);
    hide ReadMember, ReadMembers, SkipSpace, EntryTo, EntriesTo;
    hide OkEntry, OkEntries, EntryValues, Value, IsPad, BodyValue;
    if s[0] == CLOSE {
      es := [e];
      assert s == [CLOSE] + ReadMembers(t).rest;
      EntriesOne(e, s);
    } else {
      var next := LeadingPad(s[1..]);
      var more := EntriesAt(next, SkipSpace(s[1..]));
      es := [e] + more;
      assert s == [COMMA] + EntriesTo(more, [CLOSE] + ReadMembers(t).rest);
      EntriesCons(e, more, [CLOSE] + ReadMembers(t).rest);
    }
  }

  lemma ReadMembersIs(t: Text)
    requires ReadMembers(t).Done?
    ensures ReadMember(t).Done?
    ensures var m, s := ReadMember(t).value, ReadMember(t).rest;
      && |s| > 0 && (s[0] == CLOSE || s[0] == COMMA)
      && (s[0] == CLOSE ==> ReadMembers(t) == Done([m], s[1..]))
      && (s[0] == COMMA ==>
            var more := ReadMembers(SkipSpace(s[1..]));
            more.Done? && ReadMembers(t) == Done([m] + more.value, more.rest))
  {
  }

  lemma EntriesOne(e: Entry, rest: Text)
    requires OkEntry(e)
    ensures OkEntries([e]) && OkBody(e.key) && Ok(e.tree)
    ensures EntryValues([e]) == [Member(BodyValue(e.key), Value(e.tree))]
    ensures EntriesTo([e], rest) == e.pre + EntryTo(e, rest)
  {
    assert [e][1..] == [];
  }

  lemma EntriesCons(e: Entry, more: seq<Entry>, rest: Text)
    requires OkEntry(e) && OkEntries(more) && |more| > 0
    ensures OkEntries([e] + more) && OkBody(e.key) && Ok(e.tree)
    ensures EntryValues([e] + more) == [Member(BodyValue(e.key), Value(e.tree))] + EntryValues(more)
    ensures EntriesTo([e] + more, rest) == e.pre + EntryTo(e, [COMMA] + EntriesTo(more, rest))
  {
    var es := [e] + more;
    assert es[1..] == more;
  }

  /** `t` is a spelling of `v` with space around it. */
  ghost predicate Spells(t: Text, v: Json, before: Text, x: Tree, after: Text) {
    IsPad(before) && Ok(x) && IsPad(after) && Value(x) == v && t == before + RenderTo(x, after)
  }

  /** JSON.parse reads a text as a value exactly when the text is one of the value's spellings. */
  lemma ParsesExactly(t: Text, v: Json)
    ensures Parse(t) == Some(v) <==> exists before, x, after :: Spells(t, v, before, x, after)
  {
    if Parse(t) == Some(v) {
      var before := LeadingPad(t);
      var x := TreeAt(SkipSpace(t));
      var after := LeadingPad(ReadValue(SkipSpace(t)).rest);
      hide ReadValue, SkipSpace, RenderTo, Value, Ok, IsPad;
      assert after + [] == after;
      assert Spells(t, v, before, x, after);
    }
    if before, x, after :| Spells(t, v, before, x, after) {
      ParseAnySpelling(before, x, after);
    }
  }
}
