// The session state a game turn updates, and the two steps that update it: the reconciliation of
// a reply's suffix tags after the model answers, and the per-command step around it.

module GameSession {
  import opened Options
  import opened Text
  import opened OrderedDict
  import opened Dialogue
  import opened Tags
  import opened Mission

  /** The mission clock's starting value; the elapsed time is measured from it. */
  const StartTime: int := 60

  /** What the reconciliation hands back: the cleaned reply, or the ValueError of a bad location pair. */
  datatype Outcome = Replied(clean: string) | LocationParseError

  /** A command either takes the backdoor (and the script reruns) or runs a full turn. */
  datatype CommandOutcome = Backdoor | Turn(outcome: Outcome)

  /** The session keys a turn reads and writes. */
  datatype State = State(
    locations: Dict<string, string>,
    discovered: seq<string>,
    objectives: map<string, bool>,
    efficiency: int,
    messages: seq<Msg>,
    missionTime: int,
    missionComplete: bool,
    timeElapsed: int,
    viability: int)

  /** The state every step keeps: one entry per unit, and no POI discovered twice. */
  predicate ValidState(st: State) {
    DistinctKeys(st.locations) && NoDup(st.discovered)
  }

  /** The state a fresh session starts from, for the given initial objectives. */
  function InitialState(objectives: map<string, bool>): State {
    State([("SAM", "Insertion Point"), ("DAVE", "Insertion Point"), ("MIKE", "Insertion Point")],
          [], objectives, 1000, [], StartTime, false, 0, 100)
  }

  // ---------------------------------------------------------------------------------------
  // The reconciliation of one reply
  // ---------------------------------------------------------------------------------------

  /**
   * The state after a reply, in the order the blocks run: locations, discovery, objectives, the
   * win phrase, and the split reply appended after the recon reports. A bad location pair ends the
   * turn after the locations written so far.
   */
  function ReconcileOf(catalog: seq<Poi>, st: State, reply: string): (State, Outcome) {
    var located := LocationsAfter(st.locations, reply);
    var parsed := st.(locations := located.0);
    if !located.1 then (parsed, LocationParseError) else FinishOf(catalog, parsed, reply)
  }

  /** The blocks after the location step: discovery, objectives, the win phrase and the split reply. */
  function FinishOf(catalog: seq<Poi>, st: State, reply: string): (State, Outcome) {
    var checked := WinOf(ReachOf(DiscoverOf(catalog, st), reply), reply);
    var clean := StripTags(reply);
    (checked.(messages := checked.messages + [ReplyMsg(DialogueOf(clean), clean)]), Replied(clean))
  }

  /** Block A1: the discovered ids and the recon reports appended. */
  function DiscoverOf(catalog: seq<Poi>, st: State): State {
    var found := Discovery(catalog, st.locations, st.discovered);
    st.(discovered := found.0, messages := st.messages + found.1)
  }

  /** Block B: the objective flags and the efficiency score. */
  function ReachOf(st: State, reply: string): State {
    var reached := ApplyObjectives(st.objectives, st.efficiency, ObjIds(reply));
    st.(objectives := reached.0, efficiency := reached.1)
  }

  /** Block C: the win phrase completes the mission and records the time taken from the clock. */
  function WinOf(st: State, reply: string): State {
    if WinTriggered(reply) then st.(missionComplete := true, timeElapsed := StartTime - st.missionTime) else st
  }

  /** A turn keeps the state valid. */
  lemma ReconcileValid(catalog: seq<Poi>, st: State, reply: string)
    requires ValidState(st)
    ensures ValidState(ReconcileOf(catalog, st, reply).0)
  {
    LocationsDistinct(st.locations, reply);
    var located := LocationsAfter(st.locations, reply);
    if located.1 {
      FinishValid(catalog, st.(locations := located.0), reply);
    }
  }

  /** The blocks after the location step keep the state valid. */
  lemma FinishValid(catalog: seq<Poi>, st: State, reply: string)
    requires ValidState(st)
    ensures ValidState(FinishOf(catalog, st, reply).0)
  {
    DiscoveryNoDup(catalog, st.locations, st.discovered);
    var r := FinishOf(catalog, st, reply).0;
    assert r.locations == st.locations;
    assert r.discovered == Discovery(catalog, st.locations, st.discovered).0;
  }

  /** The location step keeps one entry per unit. */
  lemma LocationsDistinct(locs: Dict<string, string>, reply: string)
    requires DistinctKeys(locs)
    ensures DistinctKeys(LocationsAfter(locs, reply).0)
  {
    match LocSearch(reply, 0)
    case None =>
    case Some(m) => AssignDistinct(locs, Assignments(Split(Group(m.1), ", ")));
  }

  /** The pair loop keeps one entry per unit. */
  lemma {:induction false} AssignDistinct(locs: Dict<string, string>, assignments: seq<Option<(string, string)>>)
    requires DistinctKeys(locs)
    ensures DistinctKeys(Assign(locs, assignments).0)
    decreases |assignments|
  {
    if assignments != [] {
      match assignments[0]
      case None =>
      case Some(a) =>
        PutSpec(locs, a.0, a.1);
        AssignDistinct(Put(locs, a.0, a.1), assignments[1..]);
    }
  }

  /**
   * Across a turn, discovered ids are only appended, the objective keys never change, a reached
   * objective stays reached, and the efficiency score never falls.
   */
  lemma ReconcileMonotone(catalog: seq<Poi>, st: State, reply: string)
    ensures var r := ReconcileOf(catalog, st, reply).0;
      |st.discovered| <= |r.discovered| && r.discovered[..|st.discovered|] == st.discovered
    ensures var r := ReconcileOf(catalog, st, reply).0;
      r.objectives.Keys == st.objectives.Keys && forall k :: k in st.objectives && st.objectives[k] ==> r.objectives[k]
    ensures ReconcileOf(catalog, st, reply).0.efficiency >= st.efficiency
  {
    var located := LocationsAfter(st.locations, reply);
    if located.1 {
      DiscoveryGrows(catalog, located.0, st.discovered);
      ObjectivesEffect(st.objectives, st.efficiency, ObjIds(reply));
      var d := ReconcileOf(catalog, st, reply).0.discovered;
      assert d[..|st.discovered|] == st.discovered;
    }
  }

  /**
   * A reply without a location tag leaves the locations as they were, raises nothing, and still
   * runs discovery and the later blocks on the unchanged state.
   */
  lemma ReconcileWithoutTag(catalog: seq<Poi>, st: State, reply: string)
    requires LocSearch(reply, 0).None?
    ensures ReconcileOf(catalog, st, reply) == FinishOf(catalog, st, reply)
    ensures ReconcileOf(catalog, st, reply).0.locations == st.locations
    ensures ReconcileOf(catalog, st, reply).1.Replied?
  {
    assert LocationsAfter(st.locations, reply) == (st.locations, true);
  }

  /**
   * A completed turn appends the recon reports of the newly discovered POIs, one per new id, and
   * then the split reply with its cleaned text, last.
   */
  lemma ReconcileMessages(catalog: seq<Poi>, st: State, reply: string)
    requires ReconcileOf(catalog, st, reply).1.Replied?
    ensures var r := ReconcileOf(catalog, st, reply).0;
      var clean := StripTags(reply);
      |r.messages| == |st.messages| + (|r.discovered| - |st.discovered|) + 1
      && r.messages[..|st.messages|] == st.messages
      && r.messages[|r.messages| - 1] == ReplyMsg(DialogueOf(clean), clean)
      && forall k :: |st.messages| <= k < |r.messages| - 1 ==> r.messages[k].ReconMsg?
  {
    var parsed := st.(locations := LocationsAfter(st.locations, reply).0);
    FinishMessages(catalog, parsed, reply);
  }

  /** The messages the blocks after the location step append: recon reports, then the reply. */
  lemma FinishMessages(catalog: seq<Poi>, st: State, reply: string)
    ensures var r := FinishOf(catalog, st, reply).0;
      var clean := StripTags(reply);
      |r.messages| == |st.messages| + (|r.discovered| - |st.discovered|) + 1
      && r.messages[..|st.messages|] == st.messages
      && r.messages[|r.messages| - 1] == ReplyMsg(DialogueOf(clean), clean)
      && forall k :: |st.messages| <= k < |r.messages| - 1 ==> r.messages[k].ReconMsg?
  {
    var found := Discovery(catalog, st.locations, st.discovered);
    DiscoveryGrows(catalog, st.locations, st.discovered);
    DiscoveryReports(catalog, st.locations, st.discovered);
    var clean := StripTags(reply);
    var r := FinishOf(catalog, st, reply).0;
    assert r.discovered == found.0;
    assert r.messages == st.messages + found.1 + [ReplyMsg(DialogueOf(clean), clean)];
    AppendedAfter(st.messages, found.1, ReplyMsg(DialogueOf(clean), clean));
  }

  /** Appending recon reports and then one more message to a history. */
  lemma AppendedAfter(history: seq<Msg>, recon: seq<Msg>, last: Msg)
    requires forall m :: m in recon ==> m.ReconMsg?
    ensures var h := history + recon + [last];
      |h| == |history| + |recon| + 1 && h[..|history|] == history && h[|h| - 1] == last
      && forall k :: |history| <= k < |h| - 1 ==> h[k].ReconMsg?
  {
    var h := history + recon + [last];
    assert h[..|history|] == history;
    assert forall k :: |history| <= k < |h| - 1 ==> h[k] == recon[k - |history|] && h[k] in recon;
  }

  /** Every entry discovery appends is a recon report. */
  lemma {:induction false} DiscoveryReports(catalog: seq<Poi>, entries: Dict<string, string>, discovered: seq<string>)
    ensures forall m :: m in Discovery(catalog, entries, discovered).1 ==> m.ReconMsg?
    decreases |entries|
  {
    if entries != [] {
      var front := entries[..|entries| - 1];
      DiscoveryReports(catalog, front, discovered);
      var r := Discovery(catalog, front, discovered);
      var name := entries[|entries| - 1].1;
      match NewPoi(catalog, name, r.0)
      case None =>
      case Some(p) =>
    }
  }

  /** The win phrase completes the mission and fixes the elapsed time, whatever the objectives. */
  lemma ReconcileWin(catalog: seq<Poi>, st: State, reply: string)
    requires ReconcileOf(catalog, st, reply).1.Replied?
    ensures var r := ReconcileOf(catalog, st, reply).0;
      WinTriggered(reply) ==> r.missionComplete && r.timeElapsed == StartTime - st.missionTime
    ensures var r := ReconcileOf(catalog, st, reply).0;
      !WinTriggered(reply) ==> r.missionComplete == st.missionComplete && r.timeElapsed == st.timeElapsed
  {
  }

  /** On the ValueError only the locations written before the bad pair differ. */
  lemma ReconcileCrash(catalog: seq<Poi>, st: State, reply: string)
    requires ReconcileOf(catalog, st, reply).1 == LocationParseError
    ensures ReconcileOf(catalog, st, reply).0 == st.(locations := LocationsAfter(st.locations, reply).0)
    ensures !LocationsAfter(st.locations, reply).1
  {
  }

  // ---------------------------------------------------------------------------------------
  // The per-command step
  // ---------------------------------------------------------------------------------------

  /** The backdoor word, looked for in the upper-cased prompt. */
  const Backdoor_Word: string := "VALHALLA"

  /**
   * The backdoor completes the mission at once, with the clock as it stands; any other prompt
   * costs one minute, is appended as a user message, and its reply is reconciled.
   */
  function CommandOf(catalog: seq<Poi>, st: State, prompt: string, reply: string): (State, CommandOutcome) {
    if Contains(Upper(prompt), Backdoor_Word) then
      (st.(missionComplete := true, timeElapsed := StartTime - st.missionTime), Backdoor)
    else
      var sent := st.(missionTime := st.missionTime - 1, messages := st.messages + [UserMsg(prompt)]);
      var r := ReconcileOf(catalog, sent, reply);
      (r.0, Turn(r.1))
  }

  /** The backdoor changes only the completion flag and the elapsed time: no clock tick and no message. */
  lemma CommandBackdoor(catalog: seq<Poi>, st: State, prompt: string, reply: string)
    requires Contains(Upper(prompt), Backdoor_Word)
    ensures CommandOf(catalog, st, prompt, reply)
         == (st.(missionComplete := true, timeElapsed := StartTime - st.missionTime), Backdoor)
    ensures CommandOf(catalog, st, prompt, reply).0.missionTime == st.missionTime
    ensures CommandOf(catalog, st, prompt, reply).0.messages == st.messages
  {
  }

  /**
   * Any other prompt takes exactly one minute off the clock and is appended as a user message
   * before the reply's messages, even when the reconciliation raises.
   */
  lemma CommandTurn(catalog: seq<Poi>, st: State, prompt: string, reply: string)
    requires !Contains(Upper(prompt), Backdoor_Word)
    ensures var r := CommandOf(catalog, st, prompt, reply);
      r.1.Turn? && r.0.missionTime == st.missionTime - 1
      && |r.0.messages| > |st.messages| && r.0.messages[..|st.messages| + 1] == st.messages + [UserMsg(prompt)]
  {
    var sent := st.(missionTime := st.missionTime - 1, messages := st.messages + [UserMsg(prompt)]);
    var located := LocationsAfter(sent.locations, reply);
    if located.1 {
      ReconcileMessages(catalog, sent, reply);
    }
  }

  /** A turn is the reconciliation of the reply on the state with the prompt sent. */
  lemma CommandTurnOf(catalog: seq<Poi>, st: State, sent: State, prompt: string, reply: string)
    requires !Contains(Upper(prompt), Backdoor_Word)
    requires sent == st.(missionTime := st.missionTime - 1, messages := st.messages + [UserMsg(prompt)])
    ensures CommandOf(catalog, st, prompt, reply) == (ReconcileOf(catalog, sent, reply).0, Turn(ReconcileOf(catalog, sent, reply).1))
  {
  }

  /** The backdoor is seen in any letter case. */
  lemma BackdoorAnyCase(a: string, w: string, b: string)
    requires Upper(w) == Backdoor_Word
    ensures Contains(Upper(a + w + b), Backdoor_Word)
  {
    UpperConcat(a + w, b);
    UpperConcat(a, w);
    ContainsMiddle(Upper(a), Backdoor_Word, Upper(b));
  }

  /** A command keeps the state valid. */
  lemma CommandValid(catalog: seq<Poi>, st: State, prompt: string, reply: string)
    requires ValidState(st)
    ensures ValidState(CommandOf(catalog, st, prompt, reply).0)
  {
    if !Contains(Upper(prompt), Backdoor_Word) {
      ReconcileValid(catalog, st.(missionTime := st.missionTime - 1, messages := st.messages + [UserMsg(prompt)]), reply);
    }
  }

  // ---------------------------------------------------------------------------------------
  // The session object
  // ---------------------------------------------------------------------------------------

  /** st.session_state's game keys, updated in place by the steps of a turn. */
  class Session {
    const catalog: seq<Poi>
    var locations: Dict<string, string>
    var discovered: seq<string>
    var objectives: map<string, bool>
    var efficiency: int
    var messages: seq<Msg>
    var missionTime: int
    var missionComplete: bool
    var timeElapsed: int
    var viability: int

    /** The fields as a value. */
    function Snapshot(): State
      reads this
    {
      State(locations, discovered, objectives, efficiency, messages, missionTime, missionComplete, timeElapsed, viability)
    }

    ghost predicate Valid()
      reads this
    {
      ValidState(Snapshot())
    }

    /** The defaults the script writes into a fresh session. */
    constructor (catalog: seq<Poi>, objectives: map<string, bool>)
      ensures this.catalog == catalog && Snapshot() == InitialState(objectives) && Valid()
    {
      this.catalog := catalog;
      locations := [("SAM", "Insertion Point"), ("DAVE", "Insertion Point"), ("MIKE", "Insertion Point")];
      discovered := [];
      this.objectives := objectives;
      efficiency := 1000;
      messages := [];
      missionTime := StartTime;
      missionComplete := false;
      timeElapsed := 0;
      viability := 100;
    }

    /** Block A: the pairs of the first location tag, written one by one until a pair fails to split. */
    method ParseLocations(reply: string) returns (ok: bool)
      modifies this`locations
      ensures (locations, ok) == LocationsAfter(old(locations), reply)
    {
      ok := true;
      var at := LocSearch(reply, 0);
      if at.None? {
        return;
      }
      var pairs := Split(Group(at.value.1), ", ");
      var i := 0;
      while i < |pairs|
        invariant 0 <= i <= |pairs|
        invariant Assign(locations, Assignments(pairs)[i..]) == ApplyPairs(old(locations), pairs)
      {
        var parts := Split(pairs[i], "=");
        if |parts| != 2 {
          ok := false;
          return;
        }
        assert Assignments(pairs)[i..][1..] == Assignments(pairs)[i + 1..];
        locations := Put(locations, parts[0], Strip(parts[1]));
        i := i + 1;
      }
    }

    /** Block A1: every unit's location, in order, reports the POI it reaches first. */
    method DiscoverPois()
      modifies this`discovered, this`messages
      ensures var r := Discovery(catalog, locations, old(discovered));
        discovered == r.0 && messages == old(messages) + r.1
    {
      var i := 0;
      while i < |locations|
        invariant 0 <= i <= |locations|
        invariant var r := Discovery(catalog, locations[..i], old(discovered));
          discovered == r.0 && messages == old(messages) + r.1
      {
        DiscoveryStep(catalog, locations, old(discovered), i);
        ScanLocation(locations[i].1);
        i := i + 1;
      }
      assert locations[..i] == locations;
    }

    /** One pass of the discovery loop: the POI a location name matches is reported unless already discovered. */
    method ScanLocation(name: string)
      modifies this`discovered, this`messages
      ensures match NewPoi(catalog, name, old(discovered))
        case None => discovered == old(discovered) && messages == old(messages)
        case Some(p) =>
          discovered == old(discovered) + [p.id] && messages == old(messages) + [ReconMsg(ReconContent(name, p))]
    {
      var target := FindPoi(catalog, name);
      if target.Some? {
        var poi := catalog[target.value];
        if poi.id != "" && poi.id !in discovered {
          discovered := discovered + [poi.id];
          messages := messages + [ReconMsg(ReconContent(name, poi))];
        }
      }
    }

    /** Block B: each reported objective that is known and not yet reached is reached, for a bonus. */
    method ReachObjectives(reply: string)
      modifies this`objectives, this`efficiency
      ensures (objectives, efficiency) == ApplyObjectives(old(objectives), old(efficiency), ObjIds(reply))
    {
      var ids := ObjIds(reply);
      var i := 0;
      while i < |ids|
        invariant 0 <= i <= |ids|
        invariant (objectives, efficiency) == ApplyObjectives(old(objectives), old(efficiency), ids[..i])
      {
        var id := ids[i];
        ObjectivesStep(old(objectives), old(efficiency), ids, i);
        if id in objectives && !objectives[id] {
          objectives := objectives[id := true];
          efficiency := efficiency + Bonus;
        }
        i := i + 1;
      }
      assert ids[..i] == ids;
    }

    /** Block C: the win phrase, in any case, completes the mission and records the time taken. */
    method CheckWin(reply: string)
      modifies this`missionComplete, this`timeElapsed
      ensures (missionComplete, timeElapsed)
           == if WinTriggered(reply) then (true, StartTime - missionTime) else (old(missionComplete), old(timeElapsed))
    {
      if Contains(Lower(reply), Lower(WinTrigger)) {
        var timeRemaining := missionTime;
        timeElapsed := StartTime - timeRemaining;
        missionComplete := true;
      }
    }

    /** The suffix-tag reconciliation of one reply, blocks A to D in order. */
    method Reconcile(reply: string) returns (outcome: Outcome)
      requires Valid()
      modifies this
      ensures Valid()
      ensures (Snapshot(), outcome) == ReconcileOf(catalog, old(Snapshot()), reply)
    {
      ReconcileValid(catalog, Snapshot(), reply);
      var ok := ParseLocations(reply);
      if !ok {
        return LocationParseError;
      }
      outcome := Finish(reply);
    }

    /** Blocks A1 to D, once the locations are parsed. */
    method Finish(reply: string) returns (outcome: Outcome)
      modifies this`discovered, this`messages, this`objectives, this`efficiency, this`missionComplete, this`timeElapsed
      ensures (Snapshot(), outcome) == FinishOf(catalog, old(Snapshot()), reply)
    {
      ghost var st := Snapshot();
      DiscoverPois();
      ghost var s1 := Snapshot();
      assert s1 == DiscoverOf(catalog, st);
      ReachObjectives(reply);
      ghost var s2 := Snapshot();
      assert s2 == ReachOf(s1, reply);
      CheckWin(reply);
      ghost var s3 := Snapshot();
      assert s3 == WinOf(s2, reply);
      var clean := StripTags(reply);
      AppendReply(clean);
      outcome := Replied(clean);
    }

    /** Block D: the cleaned reply, split by speaker, is appended with its raw text. */
    method AppendReply(clean: string)
      modifies this`messages
      ensures messages == old(messages) + [ReplyMsg(DialogueOf(clean), clean)]
    {
      var split := ParseOperativeDialogue(clean);
      messages := messages + [ReplyMsg(split, clean)];
    }

    /** The backdoor: the mission is complete, with the clock as it stands. */
    method OpenBackdoor()
      modifies this`missionComplete, this`timeElapsed
      ensures missionComplete && timeElapsed == StartTime - missionTime
    {
      missionComplete := true;
      timeElapsed := StartTime - missionTime;
    }

    /** A prompt that is sent costs one minute and is appended as a user message. */
    method SendPrompt(prompt: string)
      requires Valid()
      modifies this`missionTime, this`messages
      ensures Valid()
      ensures Snapshot() == old(Snapshot()).(missionTime := old(missionTime) - 1, messages := old(messages) + [UserMsg(prompt)])
    {
      missionTime := missionTime - 1;
      messages := messages + [UserMsg(prompt)];
    }

    /** One submitted command, with the model's reply to it given as an input. */
    method Command(prompt: string, reply: string) returns (outcome: CommandOutcome)
      requires Valid()
      modifies this
      ensures Valid()
      ensures (Snapshot(), outcome) == CommandOf(catalog, old(Snapshot()), prompt, reply)
    {
      if Contains(Upper(prompt), Backdoor_Word) {
        OpenBackdoor();
        return Backdoor;
      }
      ghost var st := Snapshot();
      SendPrompt(prompt);
      ghost var sent := Snapshot();
      var r := Reconcile(reply);
      CommandTurnOf(catalog, st, sent, prompt, reply);
      outcome := Turn(r);
    }
  }
}
