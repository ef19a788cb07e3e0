/** The ledger as a running store: its file, its fields, and whole runs of appends and reloads. */
module LedgerStore {
  import opened Wrappers
  import opened JsonText
  import opened JsonSpelling
  import opened LedgerRecords
  import opened LedgerChain

  // ---------------------------------------------------------------- the file

  /** One record a line, as `append` writes them. */
  function DiskOf(memory: seq<Object>): Text {
    if |memory| == 0 then [] else Print(Obj(memory[0])) + [NEWLINE] + DiskOf(memory[1..])
  }

  function LineLength(t: Text): (n: nat)
    ensures n <= |t|
  {
    if |t| > 0 && t[0] != NEWLINE then 1 + LineLength(t[1..]) else 0
  }

  /** Split at newlines, empty lines dropped. */
  function Lines(t: Text): seq<Text>
    decreases |t|
  {
    var n := LineLength(t);
    (if n > 0 then [t[..n]] else []) + (if n < |t| then Lines(t[n + 1..]) else [])
  }

  /** The records read before the first line that is not a JSON object, and whether there was one. */
  datatype Loaded = Loaded(records: seq<Object>, failed: bool)

  function Load(lines: seq<Text>): Loaded {
    if |lines| == 0 then Loaded([], false)
    else
      match Parse(lines[0])
      case Some(Obj(o)) => var l := Load(lines[1..]); Loaded([o] + l.records, l.failed)
      case _ => Loaded([], true)
  }

  ghost predicate Visible(t: Text) {
    forall i :: 0 <= i < |t| ==> t[i] >= 32
  }

  lemma VisibleJoin(a: Text, b: Text)
    requires Visible(a) && Visible(b)
    ensures Visible(a + b)
  {
  }

  lemma {:induction false} EscapeVisible(s: Text, prev: Unit, rest: Text)
    requires Visible(rest)
    ensures Visible(EscapeTo(s, prev, rest))
  {
    if |s| > 0 {
      EscapeVisible(s[1..], s[0], rest);
      EscapeUnitVisible(s[0], prev, if |s| > 1 then s[1] else 0);
      VisibleJoin(EscapeUnit(s[0], prev, if |s| > 1 then s[1] else 0), EscapeTo(s[1..], s[0], rest));
    }
  }

  lemma EscapeUnitVisible(u: Unit, prev: Unit, next: Unit)
    ensures Visible(EscapeUnit(u, prev, next))
  {
  }

  /** JSON.stringify never emits a raw control unit, so a printed record is one line. */
  lemma {:induction false} PrintVisible(v: Json, rest: Text)
    requires IsJson(v) && Visible(rest)
    ensures Visible(PrintTo(v, rest))
    decreases v, 1
  {
    match v
    case Null => VisibleJoin(NULL, rest);
    case Bool(b) => VisibleJoin(if b then TRUE else FALSE, rest);
    case Num(l) =>
      assert forall i :: 0 <= i < |l| ==> IsNumberUnit(l[i]);
      VisibleJoin(l, rest);
    case Str(s) => QuoteVisible(s, rest);
    case Arr(items) => PrintItemsVisible(items, [CLOSE_LIST] + rest);
    case Obj(ms) => PrintMembersVisible(ms, [CLOSE] + rest);
  }

  lemma QuoteVisible(s: Text, rest: Text)
    requires Visible(rest)
    ensures Visible(QuoteTo(s, rest))
  {
    EscapeVisible(s, 0, [QUOTE] + rest);
  }

  lemma {:induction false} PrintItemsVisible(items: seq<Json>, rest: Text)
    requires (forall i :: 0 <= i < |items| ==> IsJson(items[i])) && Visible(rest)
    ensures Visible(PrintItemsTo(items, rest))
    decreases items, 0
  {
    if |items| > 0 {
      PrintItemsVisible(items[1..], rest);
      PrintVisible(items[0], if |items| == 1 then rest else [COMMA] + PrintItemsTo(items[1..], rest));
    }
  }

  lemma {:induction false} PrintMembersVisible(ms: seq<Member>, rest: Text)
    requires (forall i :: 0 <= i < |ms| ==> IsJson(ms[i].value)) && Visible(rest)
    ensures Visible(PrintMembersTo(ms, rest))
    decreases ms, 0
  {
    if |ms| > 0 {
      PrintMembersVisible(ms[1..], rest);
      var after := if |ms| == 1 then rest else [COMMA] + PrintMembersTo(ms[1..], rest);
      PrintVisible(ms[0].value, after);
      QuoteVisible(ms[0].key, [COLON] + PrintTo(ms[0].value, after));
    }
  }

  lemma {:induction false} LineLengthIs(l: Text, rest: Text)
    requires Visible(l)
    ensures LineLength(l + [NEWLINE] + rest) == |l|
  {
    var t := l + [NEWLINE] + rest;
    if |l| > 0 {
      assert t[1..] == l[1..] + [NEWLINE] + rest;
      LineLengthIs(l[1..], rest);
    }
  }

  lemma FirstLine(l: Text, rest: Text)
    requires Visible(l) && |l| > 0
    ensures Lines(l + [NEWLINE] + rest) == [l] + Lines(rest)
  {
    var t := l + [NEWLINE] + rest;
    LineLengthIs(l, rest);
    assert t[..|l|] == l && t[|l| + 1..] == rest;
  }

  lemma PrintedIsNotEmpty(o: Object)
    ensures |Print(Obj(o))| > 0
  {
  }

  lemma LoadWritten(o: Object, rest: Text)
    requires Good(o)
    ensures Load(Lines(Print(Obj(o)) + [NEWLINE] + rest))
      == Loaded([o] + Load(Lines(rest)).records, Load(Lines(rest)).failed)
  {
    PrintVisible(Obj(o), []);
    PrintedIsNotEmpty(o);
    FirstLine(Print(Obj(o)), rest);
    ParsePrint(Obj(o));
    hide Lines, Print, Parse, Good, Visible;
    assert ([Print(Obj(o))] + Lines(rest))[1..] == Lines(rest);
  }

  /** Reading the file back gives the records that were written, whatever their strings hold. */
  lemma {:induction false} LoadDisk(memory: seq<Object>)
    requires AllGood(memory)
    ensures Load(Lines(DiskOf(memory))) == Loaded(memory, false)
  {
    if |memory| == 0 {
      assert Lines([]) == [];
    } else {
      var o, tail := memory[0], memory[1..];
      assert Good(o);
      assert DiskOf(memory) == Print(Obj(o)) + [NEWLINE] + DiskOf(tail);
      hide Lines, Print, Parse, DiskOf, Load, Good, Visible;
      LoadDisk(tail);
      LoadWritten(o, DiskOf(tail));
      assert [o] + tail == memory;
    }
  }

  lemma {:induction false} DiskMore(memory: seq<Object>, rec: Object)
    ensures DiskOf(memory + [rec]) == DiskOf(memory) + (Print(Obj(rec)) + [NEWLINE])
  {
    if |memory| == 0 {
      assert memory + [rec] == [rec];
    } else {
      hide Print;
      DiskMore(memory[1..], rec);
      assert (memory + [rec])[1..] == memory[1..] + [rec];
      var head := Print(Obj(memory[0])) + [NEWLINE];
      assert head + (DiskOf(memory[1..]) + (Print(Obj(rec)) + [NEWLINE]))
        == (head + DiskOf(memory[1..])) + (Print(Obj(rec)) + [NEWLINE]);
    }
  }

  // ---------------------------------------------------------------- runs

  datatype State = State(memory: seq<Object>, seqNo: nat, prevHash: Text, disk: Text, broken: bool)

  datatype Op =
    | Append(entry: Object, now: Text, written: bool)
    | Reload

  /** What opening a file yields: the readable records, the last one's number and hash. */
  function Opened(disk: Text): State {
    var l := Load(Lines(disk));
    if |l.records| == 0 then State([], 0, GENESIS, disk, l.failed)
    else
      var last := l.records[|l.records|-1];
      State(l.records, SeqOf(last), HashOf(last), disk, l.failed)
  }

  /** An append that cannot be written changes nothing and raises; observers are left out. */
  function Step(sha: Sha, s: State, op: Op): State {
    match op
    case Reload => Opened(s.disk)
    case Append(entry, now, written) =>
      if s.broken || !written then s
      else
        var rec := RecordOf(sha, entry, s.seqNo + 1, s.prevHash, now);
        State(s.memory + [rec], s.seqNo + 1, HashOf(rec), s.disk + (Print(Obj(rec)) + [NEWLINE]), s.broken)
  }

  function Run(sha: Sha, s: State, ops: seq<Op>): State {
    if |ops| == 0 then s else Step(sha, Run(sha, s, ops[..|ops|-1]), ops[|ops|-1])
  }

  const EMPTY: State := State([], 0, GENESIS, [], false)

  /** The file holds the records, they are numbered from 1, and the chain verifies. */
  ghost predicate Sound(sha: Sha, s: State) {
    && AllGood(s.memory) && Numbered(s.memory) && ChainOk(sha, s.memory)
    && s.seqNo == |s.memory| && s.prevHash == Prev(s.memory, |s.memory|)
    && s.disk == DiskOf(s.memory) && !s.broken
  }

  ghost predicate Admissible(op: Op) {
    op.Append? ==> Good(op.entry) && Get(op.entry, HASH) == None
  }

  lemma NumberedLast(memory: seq<Object>)
    requires |memory| > 0 && Numbered(memory)
    ensures SeqOf(memory[|memory|-1]) == |memory|
  {
    assert Get(memory[|memory| - 1], SEQ) == Some(Num(Decimal(|memory|)));
    DecimalIsNumber(|memory|);
  }

  /** A reload of a sound ledger is the same ledger. */
  lemma ReloadIsIdentity(sha: Sha, s: State)
    requires Sound(sha, s)
    ensures Opened(s.disk) == s
  {
    LoadDisk(s.memory);
    if |s.memory| > 0 { NumberedLast(s.memory); }
    hide Load, Lines, DiskOf, Numbered, AllGood, ChainOk;
  }

  lemma SoundMore(sha: Sha, s: State, rec: Object)
    requires Sound(sha, s) && Good(rec) && Get(rec, SEQ) == Some(Num(Decimal(s.seqNo + 1)))
      && Linked(sha, s.prevHash, rec)
    ensures Sound(sha, State(s.memory + [rec], s.seqNo + 1, HashOf(rec), s.disk + (Print(Obj(rec)) + [NEWLINE]), false))
  {
    hide Good, Linked, ChainOk, DiskOf, HashOf, Print, AllGood, Numbered, Get, Decimal;
    ChainMore(sha, s.memory, rec);
    DiskMore(s.memory, rec);
    NumberedMore(s.memory, rec);
  }

  lemma AppendKeepsSound(sha: Sha, s: State, entry: Object, now: Text)
    requires Sound(sha, s) && Good(entry) && Get(entry, HASH) == None
    ensures Sound(sha, Step(sha, s, Append(entry, now, true)))
  {
    assert !s.broken;
    hide Sound, RecordOf, Good, Linked, HashOf, Print, Get, Decimal;
    NoHashLinks(sha, entry, s.seqNo + 1, s.prevHash, now);
    SoundMore(sha, s, RecordOf(sha, entry, s.seqNo + 1, s.prevHash, now));
  }

  lemma NoHashLinks(sha: Sha, entry: Object, seqNo: nat, prev: Text, now: Text)
    requires Good(entry) && Get(entry, HASH) == None
    ensures var rec := RecordOf(sha, entry, seqNo, prev, now);
      Good(rec) && Get(rec, SEQ) == Some(Num(Decimal(seqNo))) && Linked(sha, prev, rec)
  {
    BodyIsGood(entry, seqNo, prev, now);
    NoHashNoChange(BodyOf(entry, seqNo, prev, now));
    RecordLinks(sha, entry, seqNo, prev, now);
  }

  lemma NumberedMore(memory: seq<Object>, rec: Object)
    requires AllGood(memory) && Numbered(memory) && Good(rec) && Get(rec, SEQ) == Some(Num(Decimal(|memory| + 1)))
    ensures AllGood(memory + [rec]) && Numbered(memory + [rec])
  {
    hide Good, Get, Decimal;
  }

  /** After any appends, failed appends and reloads: numbered 1..n, verifying, and equal to its file. */
  lemma {:induction false} RunIsSound(sha: Sha, ops: seq<Op>)
    requires forall i :: 0 <= i < |ops| ==> Admissible(ops[i])
    ensures Sound(sha, Run(sha, EMPTY, ops))
  {
    if |ops| == 0 {
    } else {
      var before, op := ops[..|ops|-1], ops[|ops|-1];
      RunIsSound(sha, before);
      assert Admissible(op);
      var s := Run(sha, EMPTY, before);
      match op
      case Reload => ReloadIsIdentity(sha, s);
      case Append(entry, now, written) => if written { AppendKeepsSound(sha, s, entry, now); }
    }
  }

  /** What was appended is what a later reload reads back, whatever the entry holds. */
  lemma AppendedIsReadBack(sha: Sha, s: State, entry: Object, now: Text)
    requires AllGood(s.memory) && s.disk == DiskOf(s.memory) && !s.broken && Good(entry)
    ensures var t := Opened(Step(sha, s, Append(entry, now, true)).disk);
      && |t.memory| == |s.memory| + 1 && t.memory[..|s.memory|] == s.memory && !t.broken
      && Holds(sha, t.memory[|s.memory|], entry, s.seqNo + 1, s.prevHash, now)
  {
    hide Good, RecordOf, Holds, Print, HashOf, Get, Lines, Load, SeqOf;
    var rec := RecordOf(sha, entry, s.seqNo + 1, s.prevHash, now);
    RecordIsGood(sha, entry, s.seqNo + 1, s.prevHash, now);
    RecordHolds(sha, entry, s.seqNo + 1, s.prevHash, now);
    DiskMore(s.memory, rec);
    LoadDisk(s.memory + [rec]);
  }

  // ---------------------------------------------------------------- the store

  /** The first `k` lines have been taken into `records`; `failed` once a line was no object. */
  ghost predicate Loading(lines: seq<Text>, k: nat, records: seq<Object>, failed: bool) {
    k <= |lines| &&
    if failed then Load(lines) == Loaded(records, true)
    else Load(lines) == Loaded(records + Load(lines[k..]).records, Load(lines[k..]).failed)
  }

  /** Number and hash of the last record, or the values of an empty ledger. */
  ghost predicate Tip(memory: seq<Object>, seqNo: nat, prevHash: Text) {
    if |memory| == 0 then seqNo == 0 && prevHash == GENESIS
    else seqNo == SeqOf(memory[|memory|-1]) && prevHash == HashOf(memory[|memory|-1])
  }

  lemma LoadStart(lines: seq<Text>)
    ensures Loading(lines, 0, [], false)
  {
    assert lines[0..] == lines;
    hide Load;
  }

  lemma LoadLine(lines: seq<Text>, k: nat, records: seq<Object>)
    requires k < |lines| && Loading(lines, k, records, false)
    ensures Parse(lines[k]).Some? && Parse(lines[k]).value.Obj? ==>
      Loading(lines, k + 1, records + [Parse(lines[k]).value.members], false)
    ensures !(Parse(lines[k]).Some? && Parse(lines[k]).value.Obj?) ==> Loading(lines, k, records, true)
  {
    hide Parse;
    var tail := lines[k..];
    assert tail[0] == lines[k] && tail[1..] == lines[k + 1..];
    if Parse(lines[k]).Some? && Parse(lines[k]).value.Obj? {
      var o := Parse(lines[k]).value.members;
      assert records + ([o] + Load(tail[1..]).records) == (records + [o]) + Load(tail[1..]).records;
    } else {
      assert records + [] == records;
    }
  }

  lemma LoadEnd(lines: seq<Text>, k: nat, records: seq<Object>, failed: bool)
    requires Loading(lines, k, records, failed) && (k == |lines| || failed)
    ensures Load(lines) == Loaded(records, failed)
  {
    if !failed { assert lines[k..] == [] && records + [] == records; }
  }

  /** The first record that does not link, and whether its back pointer or its content is off. */
  datatype Verdict = Verified(length: nat) | BrokenAt(index: nat, seqNo: Maybe<Json>, chain: bool)

  lemma LinkedIs(sha: Sha, prev: Text, rec: Object)
    ensures Linked(sha, prev, rec) <==>
      && Get(Without(rec, HASH), PREV_HASH) == Some(Str(prev))
      && Get(rec, HASH) == Some(Str(HashEntry(sha, prev, Without(rec, HASH))))
  {
  }

  class Ledger {
    const sha: Sha
    var seqNo: nat
    var prevHash: Text
    var memory: seq<Object>
    var disk: Text
    var broken: bool

    ghost function Now(): State
      reads this
    {
      State(memory, seqNo, prevHash, disk, broken)
    }

    constructor (sha: Sha, disk: Text)
      ensures this.sha == sha && Now() == Opened(disk)
    {
      this.sha := sha;
      this.disk := disk;
      memory, seqNo, prevHash, broken := [], 0, GENESIS, false;
      new;
      Reload();
    }

    /** Opening the file again: one loop over its lines, stopping at the first bad one. */
    method Reload()
      modifies this
      ensures Now() == Step(sha, old(Now()), Op.Reload)
    {
      hide Lines, Load, Parse, SeqOf, HashOf, Loading, Prev;
      memory, seqNo, prevHash, broken := [], 0, GENESIS, false;
      var lines := Lines(disk);
      var k := 0;
      LoadStart(lines);
      while k < |lines| && !broken
        invariant 0 <= k <= |lines| && disk == old(disk)
        invariant Loading(lines, k, memory, broken)
        invariant Tip(memory, seqNo, prevHash)
        decreases |lines| - k, !broken
      {
        LoadLine(lines, k, memory);
        match Parse(lines[k])
        case Some(Obj(rec)) =>
          memory := memory + [rec];
          seqNo := SeqOf(rec);
          prevHash := HashOf(rec);
          k := k + 1;
        case _ =>
          broken := true;
      }
      LoadEnd(lines, k, memory, broken);
    }

    method Append(entry: Object, now: Text, written: bool) returns (r: Maybe<Object>)
      modifies this
      ensures Now() == Step(sha, old(Now()), Op.Append(entry, now, written))
      ensures r.Some? <==> !old(broken) && written
      ensures r.Some? ==> memory == old(memory) + [r.value]
      ensures r.Some? ==> Holds(sha, r.value, entry, old(seqNo) + 1, old(prevHash), now)
    {
      hide Print, HashOf, BodyOf, Put, HashEntry, Decimal, Holds;
      if broken { return None; }
      RecordHolds(sha, entry, seqNo + 1, prevHash, now);
      var body := BodyOf(entry, seqNo + 1, prevHash, now);
      var rec := Put(body, HASH, Str(HashEntry(sha, prevHash, body)));
      if !written { return None; }
      disk := disk + (Print(Obj(rec)) + [NEWLINE]);
      seqNo := seqNo + 1;
      prevHash := HashOf(rec);
      memory := memory + [rec];
      return Some(rec);
    }

    /** Walks the chain with a running hash. */
    method Verify() returns (v: Verdict)
      ensures v.Verified? <==> ChainOk(sha, memory)
      ensures v.Verified? ==> v.length == |memory|
      ensures v.BrokenAt? ==>
        && v.index < |memory|
        && (forall i :: 0 <= i < v.index ==> Linked(sha, Prev(memory, i), memory[i]))
        && !Linked(sha, Prev(memory, v.index), memory[v.index])
        && v.seqNo == Get(memory[v.index], SEQ)
        && (v.chain <==> Get(Without(memory[v.index], HASH), PREV_HASH) != Some(Str(Prev(memory, v.index))))
    {
      hide HashEntry, Without, Get, HashOf, Linked;
      var prev := GENESIS;
      for k := 0 to |memory|
        invariant prev == Prev(memory, k)
        invariant forall i :: 0 <= i < k ==> Linked(sha, Prev(memory, i), memory[i])
      {
        var rec := memory[k];
        LinkedIs(sha, prev, rec);
        var hash := Get(rec, HASH);
        var body := Without(rec, HASH);
        if Get(body, PREV_HASH) != Some(Str(prev)) { return BrokenAt(k, Get(rec, SEQ), true); }
        if Some(Str(HashEntry(sha, prev, body))) != hash { return BrokenAt(k, Get(rec, SEQ), false); }
        prev := HashOf(rec);
      }
      return Verified(|memory|);
    }
  }
}
