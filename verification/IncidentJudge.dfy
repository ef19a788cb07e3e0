/** The observation judge: one inference at a time, one open incident per camera and type, cleared
    by a run of quiet observations. The single await splits an observation in two steps. */
module IncidentJudge {
  import opened Wrappers

  datatype Open = Open(intentId: string, occurrences: nat, quietStreak: nat)

  function Key(camera: string, kind: string): string {
    camera + "|" + kind
  }

  predicate StartsWith(s: string, p: string) {
    |p| <= |s| && s[..|p|] == p
  }

  // ---------------------------------------------------------------- the rule over the history

  /** What the open table depends on, in the order it was settled. */
  datatype Input = Quiet(camera: string) | Incident(icamera: string, kind: string)

  /** A quiet observation of the camera reaches the row of that key: the prefix test of the loop. */
  predicate Touches(camera: string, key: string) {
    StartsWith(key, camera + "|")
  }

  /** Quiet observations that reached the row since the last incident was judged on it. */
  function Streak(inputs: seq<Input>, key: string): Maybe<nat> {
    if |inputs| == 0 then None
    else
      var front := Streak(inputs[..|inputs|-1], key);
      match inputs[|inputs|-1]
      case Incident(c, k) => if Key(c, k) == key then Some(0) else front
      case Quiet(c) => if Touches(c, key) && front.Some? then Some(front.value + 1) else front
  }

  /** An incident clears on this many quiet observations; a threshold below one acts as one. */
  function Needed(clearAfterQuiet: int): nat {
    if clearAfterQuiet < 1 then 1 else clearAfterQuiet
  }

  lemma NeededIs(clearAfterQuiet: int)
    ensures clearAfterQuiet >= 1 ==> Needed(clearAfterQuiet) == clearAfterQuiet
    ensures clearAfterQuiet < 1 ==> Needed(clearAfterQuiet) == 1
  {
  }

  predicate IsOpen(inputs: seq<Input>, key: string, needed: nat) {
    var s := Streak(inputs, key);
    s.Some? && s.value < needed
  }

  /** One for the judgment that opened the row, one for each that attached since. */
  function Occurrences(inputs: seq<Input>, key: string, needed: nat): nat {
    if |inputs| == 0 then 0
    else
      var front, x := inputs[..|inputs|-1], inputs[|inputs|-1];
      if x.Incident? && Key(x.icamera, x.kind) == key then
        if IsOpen(front, key, needed) then Occurrences(front, key, needed) + 1 else 1
      else Occurrences(front, key, needed)
  }

  /** How many judged incidents found their row not open, and so opened it. */
  function OpenedIn(inputs: seq<Input>, needed: nat): nat {
    if |inputs| == 0 then 0
    else
      var front, x := inputs[..|inputs|-1], inputs[|inputs|-1];
      OpenedIn(front, needed) + if x.Incident? && !IsOpen(front, Key(x.icamera, x.kind), needed) then 1 else 0
  }

  lemma OpenedMore(inputs: seq<Input>, x: Input, needed: nat)
    ensures OpenedIn(inputs + [x], needed)
         == OpenedIn(inputs, needed) + if x.Incident? && !IsOpen(inputs, Key(x.icamera, x.kind), needed) then 1 else 0
  {
    assert (inputs + [x])[..|inputs|] == inputs;
  }

  lemma StreakMore(inputs: seq<Input>, x: Input, key: string, needed: nat)
    ensures Streak(inputs + [x], key) ==
      if x.Incident? then if Key(x.icamera, x.kind) == key then Some(0) else Streak(inputs, key)
      else if Touches(x.camera, key) && Streak(inputs, key).Some? then Some(Streak(inputs, key).value + 1)
      else Streak(inputs, key)
    ensures Occurrences(inputs + [x], key, needed) ==
      if x.Incident? && Key(x.icamera, x.kind) == key then
        if IsOpen(inputs, key, needed) then Occurrences(inputs, key, needed) + 1 else 1
      else Occurrences(inputs, key, needed)
  {
    assert (inputs + [x])[..|inputs|] == inputs;
  }

  /** An open row closes exactly on the last of the quiet observations it takes. */
  lemma ClosesExactly(inputs: seq<Input>, x: Input, key: string, needed: nat)
    requires IsOpen(inputs, key, needed)
    ensures !IsOpen(inputs + [x], key, needed) <==>
      x.Quiet? && Touches(x.camera, key) && Streak(inputs, key).value + 1 == needed
  {
    StreakMore(inputs, x, key, needed);
  }

  predicate IsIncident(x: Input, key: string) {
    x.Incident? && Key(x.icamera, x.kind) == key
  }

  /** Quiet observations that reach the row, from position `i` on. */
  function QuietFrom(inputs: seq<Input>, i: nat, key: string): nat
    requires i <= |inputs|
  {
    if i == |inputs| then 0
    else
      var x := inputs[|inputs|-1];
      QuietFrom(inputs[..|inputs|-1], i, key) + if x.Quiet? && Touches(x.camera, key) then 1 else 0
  }

  /** Incidents judged on the row, from position `i` on. */
  function IncidentsFrom(inputs: seq<Input>, i: nat, key: string): nat
    requires i <= |inputs|
  {
    if i == |inputs| then 0
    else IncidentsFrom(inputs[..|inputs|-1], i, key) + if IsIncident(inputs[|inputs|-1], key) then 1 else 0
  }

  /** The streak counts from the latest incident on the row. */
  lemma {:induction false} StreakCounts(inputs: seq<Input>, key: string, i: nat)
    requires i < |inputs| && IsIncident(inputs[i], key)
    requires forall j :: i < j < |inputs| ==> !IsIncident(inputs[j], key)
    ensures Streak(inputs, key) == Some(QuietFrom(inputs, i + 1, key))
  {
    if i < |inputs| - 1 { StreakCounts(inputs[..|inputs|-1], key, i); }
  }

  /** The row was opened at position `i` and has been open ever since. */
  ghost predicate OpenSince(inputs: seq<Input>, key: string, needed: nat, i: nat) {
    && i < |inputs| && IsIncident(inputs[i], key) && !IsOpen(inputs[..i], key, needed)
    && forall j :: i < j <= |inputs| ==> IsOpen(inputs[..j], key, needed)
  }

  /** Every open row was opened by one incident, and its occurrences are 1 plus the incidents
      attached since. */
  lemma {:induction false} OccurrencesCount(inputs: seq<Input>, key: string, needed: nat) returns (i: nat)
    requires IsOpen(inputs, key, needed)
    ensures OpenSince(inputs, key, needed, i)
    ensures Occurrences(inputs, key, needed) == 1 + IncidentsFrom(inputs, i + 1, key)
  {
    var front, x := inputs[..|inputs|-1], inputs[|inputs|-1];
    assert inputs[..|inputs|] == inputs;
    hide Touches, Key;
    if IsOpen(front, key, needed) {
      i := OccurrencesCount(front, key, needed);
      assert forall j :: 0 <= j <= |front| ==> front[..j] == inputs[..j];
    } else {
      i := |inputs| - 1;
    }
  }

  // ---------------------------------------------------------------- whose quiet it is

  lemma BarAfterPrefix(key: string, camera: string)
    requires Touches(camera, key)
    ensures |camera| < |key| && key[|camera|] == '|' && key[..|camera|] == camera
  {
    var p := camera + "|";
    assert key[|camera|] == key[..|p|][|camera|] && key[..|camera|] == key[..|p|][..|camera|];
  }

  lemma BarTouches(key: string, n: nat)
    requires n < |key| && key[n] == '|'
    ensures Touches(key[..n], key)
  {
    assert key[..n + 1] == key[..n] + "|";
  }

  /** Where the row of a camera and a type can be taken for another camera's: a bar in the type, or
      one in the camera id behind its first character (an id is never empty). */
  predicate Ambiguous(camera: string, kind: string)
    requires camera != ""
  {
    '|' in camera[1..] || '|' in kind
  }

  /** The prefix test picks out the camera's own rows, and no two pairs share a key, unless ambiguous. */
  lemma OwnRow(camera: string, kind: string, other: string)
    requires camera != "" && other != "" && !Ambiguous(camera, kind)
    ensures Touches(other, Key(camera, kind)) <==> other == camera
    ensures forall k :: Key(other, k) == Key(camera, kind) <==> other == camera && k == kind
  {
    var key := Key(camera, kind);
    BarTouches(key, |camera|);
    assert key[..|camera|] == camera && key[|camera| + 1..] == kind;
    assert forall n :: 0 < n < |camera| ==> key[n] == camera[1..][n - 1];
    assert forall n :: |camera| < n < |key| ==> key[n] == kind[n - |camera| - 1];
    if Touches(other, key) { BarAfterPrefix(key, other); }
    forall k | Key(other, k) == key ensures other == camera && k == kind {
      BarTouches(key, |other|);
      assert key[..|other|] == other;
      assert key[|other| + 1..] == k;
    }
  }

  /** Some other camera's prefix fits an ambiguous row. */
  lemma Stranger(camera: string, kind: string) returns (other: string)
    requires camera != "" && Ambiguous(camera, kind)
    ensures other != "" && other != camera && Touches(other, Key(camera, kind))
  {
    var key := Key(camera, kind);
    var n: nat;
    if '|' in camera[1..] {
      var j :| 0 <= j < |camera[1..]| && camera[1..][j] == '|';
      n := j + 1;
    } else {
      var j :| 0 <= j < |kind| && kind[j] == '|';
      n := |camera| + 1 + j;
    }
    BarTouches(key, n);
    other := key[..n];
  }

  /** The camera's own rule: its quiet observations since the last incident of that type there. */
  function OwnStreak(inputs: seq<Input>, camera: string, kind: string): Maybe<nat> {
    if |inputs| == 0 then None
    else
      var front := OwnStreak(inputs[..|inputs|-1], camera, kind);
      match inputs[|inputs|-1]
      case Incident(c, k) => if c == camera && k == kind then Some(0) else front
      case Quiet(c) => if c == camera && front.Some? then Some(front.value + 1) else front
  }

  function CameraOf(x: Input): string {
    if x.Quiet? then x.camera else x.icamera
  }

  ghost predicate Named(inputs: seq<Input>) {
    forall i :: 0 <= i < |inputs| ==> CameraOf(inputs[i]) != ""
  }

  lemma {:induction false} OwnWhenPlain(inputs: seq<Input>, camera: string, kind: string)
    requires Named(inputs) && camera != "" && !Ambiguous(camera, kind)
    ensures Streak(inputs, Key(camera, kind)) == OwnStreak(inputs, camera, kind)
  {
    if |inputs| > 0 {
      OwnWhenPlain(inputs[..|inputs|-1], camera, kind);
      OwnRow(camera, kind, CameraOf(inputs[|inputs|-1]));
      hide Touches, Key, Ambiguous;
    }
  }

  /** A row follows its own camera and type over every history exactly when it is not ambiguous. */
  lemma OwnHistoryExactly(camera: string, kind: string)
    requires camera != ""
    ensures (forall inputs :: Named(inputs) ==> Streak(inputs, Key(camera, kind)) == OwnStreak(inputs, camera, kind))
      <==> !Ambiguous(camera, kind)
  {
    if Ambiguous(camera, kind) {
      var other := Stranger(camera, kind);
      var inputs := [Incident(camera, kind), Quiet(other)];
      assert inputs[..1] == [Incident(camera, kind)] && inputs[..1][..0] == [];
      assert Streak(inputs[..1], Key(camera, kind)) == Some(0) == OwnStreak(inputs[..1], camera, kind);
      assert Named(inputs) && Streak(inputs, Key(camera, kind)) != OwnStreak(inputs, camera, kind);
    } else {
      forall inputs | Named(inputs) ensures Streak(inputs, Key(camera, kind)) == OwnStreak(inputs, camera, kind) {
        OwnWhenPlain(inputs, camera, kind);
      }
    }
  }

  function Repeated(x: Input, n: nat): seq<Input> {
    if n == 0 then [] else Repeated(x, n - 1) + [x]
  }

  lemma {:induction false} QuietClears(camera: string, kind: string, other: string, n: nat)
    requires other != camera && Touches(other, Key(camera, kind))
    ensures Streak([Incident(camera, kind)] + Repeated(Quiet(other), n), Key(camera, kind)) == Some(n)
    ensures OwnStreak([Incident(camera, kind)] + Repeated(Quiet(other), n), camera, kind) == Some(0)
  {
    var all := [Incident(camera, kind)] + Repeated(Quiet(other), n);
    if n == 0 {
      assert all == [Incident(camera, kind)] && all[..0] == [];
    } else {
      QuietClears(camera, kind, other, n - 1);
      assert all[..|all|-1] == [Incident(camera, kind)] + Repeated(Quiet(other), n - 1);
      hide Touches, Key;
    }
  }

  /** For every ambiguous row there is another camera whose quiet observations count for it, in any
      table, and enough of them clear the incident while its own camera has not been quiet once. */
  lemma StrangersClear(camera: string, kind: string, clearAfterQuiet: int) returns (other: string)
    requires camera != "" && Ambiguous(camera, kind)
    ensures other != "" && other != camera
    ensures forall open: map<string, Open> :: Key(camera, kind) in open ==>
      var key, after := Key(camera, kind), AfterQuiet(open, other, clearAfterQuiet);
      if open[key].quietStreak + 1 >= clearAfterQuiet then key !in after
      else key in after && after[key].quietStreak == open[key].quietStreak + 1
    ensures var needed := Needed(clearAfterQuiet);
      var inputs := [Incident(camera, kind)] + Repeated(Quiet(other), needed);
      !IsOpen(inputs, Key(camera, kind), needed) && OwnStreak(inputs, camera, kind) == Some(0)
  {
    other := Stranger(camera, kind);
    QuietClears(camera, kind, other, Needed(clearAfterQuiet));
    hide Key, Streak, OwnStreak;
  }

  // ---------------------------------------------------------------- the table against the rule

  ghost predicate RowOk(open: map<string, Open>, inputs: seq<Input>, key: string, needed: nat) {
    && (key in open <==> IsOpen(inputs, key, needed))
    && (key in open ==>
          open[key].quietStreak == Streak(inputs, key).value
            && open[key].occurrences == Occurrences(inputs, key, needed))
  }

  ghost predicate Tracks(open: map<string, Open>, inputs: seq<Input>, needed: nat) {
    forall key :: RowOk(open, inputs, key, needed)
  }

  /** The table after a quiet observation: the streaks it reaches grow, the long ones go. */
  function AfterQuiet(open: map<string, Open>, camera: string, clearAfterQuiet: int): map<string, Open> {
    map key | key in open && !(Touches(camera, key) && open[key].quietStreak + 1 >= clearAfterQuiet) ::
      if Touches(camera, key) then open[key].(quietStreak := open[key].quietStreak + 1) else open[key]
  }

  lemma QuietTracks(open: map<string, Open>, inputs: seq<Input>, camera: string, clearAfterQuiet: int)
    requires Tracks(open, inputs, Needed(clearAfterQuiet))
    ensures Tracks(AfterQuiet(open, camera, clearAfterQuiet), inputs + [Quiet(camera)], Needed(clearAfterQuiet))
  {
    hide Streak, Occurrences, Touches;
    var needed, after := Needed(clearAfterQuiet), AfterQuiet(open, camera, clearAfterQuiet);
    forall key ensures RowOk(after, inputs + [Quiet(camera)], key, needed) {
      assert RowOk(open, inputs, key, needed);
      StreakMore(inputs, Quiet(camera), key, needed);
    }
  }

  /** The table after an incident judged on a camera: attached to, or opened. */
  function AfterIncident(open: map<string, Open>, camera: string, kind: string, intentId: string): map<string, Open> {
    var key := Key(camera, kind);
    open[key := if key in open then open[key].(occurrences := open[key].occurrences + 1, quietStreak := 0)
                else Open(intentId, 1, 0)]
  }

  /** An open incident keeps the intent it was opened for and starts its quiet count again; a new one
      gets the new intent; no other row moves. */
  lemma AttachedKeepsItsIntent(open: map<string, Open>, camera: string, kind: string, intentId: string)
    ensures var key, after := camera + "|" + kind, AfterIncident(open, camera, kind, intentId);
      && key in after && after[key].quietStreak == 0
      && after[key].intentId == (if key in open then open[key].intentId else intentId)
      && after[key].occurrences == (if key in open then open[key].occurrences else 0) + 1
      && forall k :: k != key ==> (k in after <==> k in open) && (k in open ==> after[k] == open[k])
  {
  }

  /** A quiet observation leaves intents and occurrences alone, and rows of other cameras whole. */
  lemma QuietKeepsIntents(open: map<string, Open>, camera: string, clearAfterQuiet: int, key: string)
    requires key in open
    ensures var after := AfterQuiet(open, camera, clearAfterQuiet);
      if |camera| < |key| && key[..|camera|] == camera && key[|camera|] == '|' then
        && (key in after <==> open[key].quietStreak + 1 < clearAfterQuiet)
        && (key in after ==> after[key] == open[key].(quietStreak := open[key].quietStreak + 1))
      else key in after && after[key] == open[key]
  {
    if StartsWith(key, camera + "|") {
      assert key[|camera|] == (camera + "|")[|camera|];
      assert key[..|camera|] == (camera + "|")[..|camera|];
    }
  }

  lemma IncidentTracks(open: map<string, Open>, inputs: seq<Input>, camera: string, kind: string, intentId: string,
                       needed: nat)
    requires Tracks(open, inputs, needed) && needed >= 1
    ensures Tracks(AfterIncident(open, camera, kind, intentId), inputs + [Incident(camera, kind)], needed)
  {
    hide Streak, Occurrences, Touches, Key;
    var after := AfterIncident(open, camera, kind, intentId);
    forall key ensures RowOk(after, inputs + [Incident(camera, kind)], key, needed) {
      assert RowOk(open, inputs, key, needed);
      StreakMore(inputs, Incident(camera, kind), key, needed);
    }
  }

  // ---------------------------------------------------------------- the judge

  datatype Verdict = Nominal | SkippedBusy | Judging | JudgedNominal | Attached(occurrences: nat) | Opened

  class Judge {
    const clearAfterQuiet: int
    var open: map<string, Open>
    var inFlight: bool
    var incidents: nat
    var skippedBusy: nat
    /** The cameras of the observations suspended at the await, each held by its call. */
    var suspended: seq<string>

    /** Everything the table has been told, and how many incidents have cleared. */
    ghost var inputs: seq<Input>
    ghost var cleared: nat

    ghost predicate Valid()
      reads this
    {
      && Tracks(open, inputs, Needed(clearAfterQuiet))
      && incidents == OpenedIn(inputs, Needed(clearAfterQuiet)) && incidents == |open| + cleared
      && |suspended| == (if inFlight then 1 else 0)
    }

    constructor (clearAfterQuiet: int)
      ensures Valid() && open == map[] && inputs == [] && !inFlight && incidents == 0 && skippedBusy == 0
    {
      this.clearAfterQuiet := clearAfterQuiet;
      open, inFlight, incidents, skippedBusy := map[], false, 0, 0;
      inputs, cleared, suspended := [], 0, [];
    }

    /** A quiet observation: may run while an inference is awaited. */
    method OnQuiet(camera: string) returns (v: Verdict)
      requires Valid()
      modifies this
      ensures Valid() && inputs == old(inputs) + [Quiet(camera)] && v == Nominal
      ensures open == AfterQuiet(old(open), camera, clearAfterQuiet)
      ensures inFlight == old(inFlight) && suspended == old(suspended)
      ensures incidents == old(incidents) && skippedBusy == old(skippedBusy)
      ensures cleared == old(cleared) + (|old(open)| - |open|)
    {
      hide Tracks, Touches, OpenedIn;
      var todo := open.Keys;
      ghost var before := open;
      while todo != {}
        invariant todo <= before.Keys && suspended == old(suspended) && inFlight == old(inFlight)
        invariant inputs == old(inputs) && incidents == old(incidents) && incidents == |open| + cleared
        invariant skippedBusy == old(skippedBusy)
        invariant forall key :: key in todo ==> key in open && open[key] == before[key]
        invariant forall key :: key in open && key !in todo ==>
          key in AfterQuiet(before, camera, clearAfterQuiet) &&
          open[key] == AfterQuiet(before, camera, clearAfterQuiet)[key]
        invariant forall key :: key in AfterQuiet(before, camera, clearAfterQuiet) ==> key in open
        decreases todo
      {
        var key :| key in todo;
        todo := todo - {key};
        if Touches(camera, key) {
          var streak := open[key].quietStreak + 1;
          if streak >= clearAfterQuiet {
            CountWithout(open, key);
            open := open - {key};
            cleared := cleared + 1;
          } else {
            CountWith(open, key, open[key].(quietStreak := streak));
            open := open[key := open[key].(quietStreak := streak)];
          }
        }
      }
      assert open == AfterQuiet(before, camera, clearAfterQuiet);
      QuietTracks(before, inputs, camera, clearAfterQuiet);
      OpenedMore(inputs, Quiet(camera), Needed(clearAfterQuiet));
      inputs := inputs + [Quiet(camera)];
      return Nominal;
    }

    /** A candidate observation up to the await: skipped while another is judged, settled at once
        by a trigger phrase, else the one inference starts. */
    method OnCandidate(camera: string, trigger: Maybe<string>, intentId: string) returns (v: Verdict)
      requires Valid()
      modifies this
      ensures Valid()
      ensures old(inFlight) ==>
        v == SkippedBusy && open == old(open) && inputs == old(inputs) && suspended == old(suspended)
      ensures skippedBusy == old(skippedBusy) + (if old(inFlight) then 1 else 0)
      ensures cleared == old(cleared)
      ensures !old(inFlight) && trigger == None ==>
        v == Judging && suspended == old(suspended) + [camera] && open == old(open) && inputs == old(inputs)
      ensures !old(inFlight) && trigger == Some("none") ==>
        v == JudgedNominal && open == old(open) && inputs == old(inputs) && !inFlight
      ensures !old(inFlight) && trigger.Some? && trigger.value != "none" ==>
        inputs == old(inputs) + [Incident(camera, trigger.value)]
          && open == AfterIncident(old(open), camera, trigger.value, intentId) && !inFlight
    {
      if inFlight {
        skippedBusy := skippedBusy + 1;
        return SkippedBusy;
      }
      if trigger.Some? {
        if trigger.value == "none" { return JudgedNominal; }
        v := Settle(camera, trigger.value, intentId);
        return;
      }
      inFlight := true;
      suspended := suspended + [camera];
      return Judging;
    }

    /** The rest of an awaited observation, whichever call resumes and whatever happened in between. */
    method OnJudgment(call: nat, judged: Maybe<string>, intentId: string) returns (v: Verdict)
      requires Valid() && call < |suspended|
      modifies this
      ensures Valid() && suspended == old(suspended)[..call] + old(suspended)[call + 1..] && !inFlight
      ensures cleared == old(cleared) && skippedBusy == old(skippedBusy)
      ensures judged == None || judged == Some("none") ==>
        v == JudgedNominal && open == old(open) && inputs == old(inputs)
      ensures judged.Some? && judged.value != "none" ==>
        && inputs == old(inputs) + [Incident(old(suspended)[call], judged.value)]
        && open == AfterIncident(old(open), old(suspended)[call], judged.value, intentId)
    {
      var camera := suspended[call];
      suspended := suspended[..call] + suspended[call + 1..];
      inFlight := false;
      if judged == None || judged == Some("none") { return JudgedNominal; }
      v := Settle(camera, judged.value, intentId);
    }

    /** An incident on a camera: attach to the open one of its kind, or open one for a new intent. */
    method Settle(camera: string, kind: string, intentId: string) returns (v: Verdict)
      requires Valid() && !inFlight
      modifies this
      ensures Valid() && !inFlight && suspended == old(suspended)
      ensures incidents == old(incidents) + (if Key(camera, kind) in old(open) then 0 else 1)
      ensures cleared == old(cleared) && skippedBusy == old(skippedBusy)
      ensures inputs == old(inputs) + [Incident(camera, kind)]
        && open == AfterIncident(old(open), camera, kind, intentId)
      ensures v == if Key(camera, kind) in old(open) then Attached(open[Key(camera, kind)].occurrences) else Opened
    {
      assert RowOk(open, inputs, Key(camera, kind), Needed(clearAfterQuiet));
      hide Tracks, Key, OpenedIn;
      IncidentTracks(open, inputs, camera, kind, intentId, Needed(clearAfterQuiet));
      OpenedMore(inputs, Incident(camera, kind), Needed(clearAfterQuiet));
      inputs := inputs + [Incident(camera, kind)];
      var key := Key(camera, kind);
      if key in open {
        var existing := open[key];
        existing := existing.(occurrences := existing.occurrences + 1, quietStreak := 0);
        CountWith(open, key, existing);
        open := open[key := existing];
        return Attached(existing.occurrences);
      }
      CountWith(open, key, Open(intentId, 1, 0));
      open := open[key := Open(intentId, 1, 0)];
      incidents := incidents + 1;
      return Opened;
    }
  }

  lemma CountWithout(open: map<string, Open>, key: string)
    requires key in open
    ensures |open - {key}| == |open| - 1
  {
    assert (open - {key}).Keys == open.Keys - {key};
  }

  lemma CountWith(open: map<string, Open>, key: string, o: Open)
    ensures |open[key := o]| == if key in open then |open| else |open| + 1
  {
    assert open[key := o].Keys == open.Keys + {key};
  }
}
