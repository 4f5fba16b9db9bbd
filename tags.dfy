/**
 * The suffix tags of a reply: the location tag read by re.search, the objective tags read by
 * re.findall, the re.sub that removes both kinds from the text that is shown, and the
 * case-insensitive test for the win phrase.
 */
module Tags {
  import opened Options
  import opened Text
  import opened OrderedDict

  // ---------------------------------------------------------------------------------------
  // [LOC_DATA: (SAM=[^,]+, DAVE=[^,]+, MIKE=[^\]]+)\]
  // ---------------------------------------------------------------------------------------

  /** The three location fields captured by the location pattern. */
  datatype LocGroup = LocGroup(sam: string, dave: string, mike: string)

  /** The first index at or after i that holds c, or |s| when there is none. */
  function RunEnd(s: string, i: nat, c: char): (r: nat)
    requires i <= |s|
    ensures i <= r <= |s|
    decreases |s| - i
  {
    if i == |s| || s[i] == c then i else RunEnd(s, i + 1, c)
  }

  /** RunEnd stops at the first c: none lies before it. */
  lemma {:induction false} RunEndSpec(s: string, i: nat, c: char)
    requires i <= |s|
    ensures forall m :: i <= m < RunEnd(s, i, c) ==> s[m] != c
    ensures RunEnd(s, i, c) == |s| || s[RunEnd(s, i, c)] == c
    decreases |s| - i
  {
    if i < |s| && s[i] != c {
      RunEndSpec(s, i + 1, c);
    }
  }

  /** A run free of c that ends at a c is the one RunEnd finds. */
  lemma {:induction false} RunEndAt(s: string, i: nat, c: char, k: nat)
    requires i <= k < |s| && s[k] == c
    requires forall m :: i <= m < k ==> s[m] != c
    ensures RunEnd(s, i, c) == k
    decreases k - i
  {
    if i < k {
      RunEndAt(s, i + 1, c, k);
    }
  }

  /**
   * The location pattern matched at the start of s. A field [^,]+ is greedy and must be followed
   * by ", ", so it is the whole comma-free run; the last field is the whole run free of ']'.
   */
  function LocMatch(s: string): (r: Option<LocGroup>) {
    if !StartsWith(s, "[LOC_DATA: SAM=") then None
    else
      var e1 := RunEnd(s, 15, ',');
      if e1 == 15 || !OccursAt(s, ", DAVE=", e1) then None
      else
        var e2 := RunEnd(s, e1 + 7, ',');
        if e2 == e1 + 7 || !OccursAt(s, ", MIKE=", e2) then None
        else
          var e3 := RunEnd(s, e2 + 7, ']');
          if e3 == e2 + 7 || e3 == |s| then None
          else Some(LocGroup(s[15..e1], s[e1 + 7..e2], s[e2 + 7..e3]))
  }

  /** The tag text for a group. */
  function LocTag(g: LocGroup): string {
    "[LOC_DATA: SAM=" + (g.sam + (", DAVE=" + (g.dave + (", MIKE=" + (g.mike + "]")))))
  }

  /** The fields the pattern's character classes admit: non-empty, no comma in the first two, no ']' in the last. */
  predicate WellShaped(g: LocGroup) {
    && g.sam != [] && ',' !in g.sam
    && g.dave != [] && ',' !in g.dave
    && g.mike != [] && ']' !in g.mike
  }

  /** The tag of g begins s, checked piece by piece. */
  ghost predicate LocTagAt(s: string, g: LocGroup) {
    var e1 := 15 + |g.sam|;
    var e2 := e1 + 7 + |g.dave|;
    var e3 := e2 + 7 + |g.mike|;
    && OccursAt(s, "[LOC_DATA: SAM=", 0) && OccursAt(s, g.sam, 15)
    && OccursAt(s, ", DAVE=", e1) && OccursAt(s, g.dave, e1 + 7)
    && OccursAt(s, ", MIKE=", e2) && OccursAt(s, g.mike, e2 + 7)
    && OccursAt(s, "]", e3)
  }

  /** The pieces in place make the whole tag text. */
  lemma LocTagFromPieces(s: string, g: LocGroup)
    requires LocTagAt(s, g)
    ensures StartsWith(s, LocTag(g))
  {
    OccursAtJoin7(s, "[LOC_DATA: SAM=", g.sam, ", DAVE=", g.dave, ", MIKE=", g.mike, "]", 0);
  }

  /** The whole tag text has its pieces in place. */
  lemma LocTagToPieces(s: string, g: LocGroup)
    requires StartsWith(s, LocTag(g))
    ensures LocTagAt(s, g)
  {
    LocLiteralLengths();
    OccursAtSplit7(s, "[LOC_DATA: SAM=", g.sam, ", DAVE=", g.dave, ", MIKE=", g.mike, "]", 0);
  }

  /** The lengths of the tag's literal pieces. */
  lemma LocLiteralLengths()
    ensures |"[LOC_DATA: SAM="| == 15 && |", DAVE="| == 7 && |", MIKE="| == 7 && |"]"| == 1
  {
  }

  /** The fields of a match are well shaped. */
  lemma LocMatchShaped(s: string)
    requires LocMatch(s).Some?
    ensures WellShaped(LocMatch(s).value)
  {
    var e1 := RunEnd(s, 15, ',');
    var e2 := RunEnd(s, e1 + 7, ',');
    RunEndSpec(s, 15, ',');
    RunEndSpec(s, e1 + 7, ',');
    RunEndSpec(s, e2 + 7, ']');
  }

  /** A match is its fields' tag, piece by piece. */
  lemma LocMatchPieces(s: string)
    requires LocMatch(s).Some?
    ensures LocTagAt(s, LocMatch(s).value)
  {
    var e1 := RunEnd(s, 15, ',');
    var e2 := RunEnd(s, e1 + 7, ',');
    var e3 := RunEnd(s, e2 + 7, ']');
    RunEndSpec(s, e2 + 7, ']');
    assert s[e3..e3 + 1] == [s[e3]];
  }

  /** A field free of c that is followed by c ends where RunEnd stops. */
  lemma FieldEnd(s: string, f: string, i: nat, c: char, t: string)
    requires OccursAt(s, f, i) && c !in f
    requires OccursAt(s, t, i + |f|) && t != [] && t[0] == c
    ensures RunEnd(s, i, c) == i + |f|
  {
    OccursAtIndex(s, f, i);
    assert s[i + |f|..i + |f| + |t|][0] == s[i + |f|];
    RunEndAt(s, i, c, i + |f|);
  }

  /** Each step of the location pattern succeeds on s, ending its fields where g's fields end. */
  ghost predicate LocSteps(s: string, g: LocGroup) {
    var e1 := 15 + |g.sam|;
    var e2 := e1 + 7 + |g.dave|;
    var e3 := e2 + 7 + |g.mike|;
    && StartsWith(s, "[LOC_DATA: SAM=")
    && RunEnd(s, 15, ',') == e1 && e1 != 15 && OccursAt(s, ", DAVE=", e1)
    && RunEnd(s, e1 + 7, ',') == e2 && e2 != e1 + 7 && OccursAt(s, ", MIKE=", e2)
    && RunEnd(s, e2 + 7, ']') == e3 && e3 != e2 + 7 && e3 < |s|
    && s[15..e1] == g.sam && s[e1 + 7..e2] == g.dave && s[e2 + 7..e3] == g.mike
  }

  /** When every step succeeds, the pattern captures g. */
  lemma LocMatchAt(s: string, g: LocGroup)
    requires LocSteps(s, g)
    ensures LocMatch(s) == Some(g)
  {
  }

  /** In a well-shaped tag the comma-free run after "SAM=" ends where the SAM field does. */
  lemma SamEnd(s: string, g: LocGroup)
    requires WellShaped(g) && LocTagAt(s, g)
    ensures RunEnd(s, 15, ',') == 15 + |g.sam|
  {
    FieldEnd(s, g.sam, 15, ',', ", DAVE=");
  }

  /** In a well-shaped tag the comma-free run after "DAVE=" ends where the DAVE field does. */
  lemma DaveEnd(s: string, g: LocGroup)
    requires WellShaped(g) && LocTagAt(s, g)
    ensures RunEnd(s, 22 + |g.sam|, ',') == 22 + |g.sam| + |g.dave|
  {
    FieldEnd(s, g.dave, 22 + |g.sam|, ',', ", MIKE=");
  }

  /** In a well-shaped tag the bracket-free run after "MIKE=" ends where the MIKE field does. */
  lemma MikeEnd(s: string, g: LocGroup)
    requires WellShaped(g) && LocTagAt(s, g)
    ensures RunEnd(s, 29 + |g.sam| + |g.dave|, ']') == 29 + |g.sam| + |g.dave| + |g.mike|
  {
    FieldEnd(s, g.mike, 29 + |g.sam| + |g.dave|, ']', "]");
  }

  /** A well-shaped tag makes every step of the pattern succeed. */
  lemma LocStepsHold(s: string, g: LocGroup)
    requires WellShaped(g) && LocTagAt(s, g)
    ensures LocSteps(s, g)
  {
    SamEnd(s, g);
    DaveEnd(s, g);
    MikeEnd(s, g);
  }

  /** A well-shaped tag at the start of s is matched, with exactly its fields. */
  lemma LocMatchComplete(s: string, g: LocGroup)
    requires WellShaped(g) && LocTagAt(s, g)
    ensures LocMatch(s) == Some(g)
  {
    LocStepsHold(s, g);
    LocMatchAt(s, g);
  }

  /** The location pattern matches at the start of s exactly when s begins with a well-shaped tag, and it captures that tag's fields. */
  lemma LocMatchIff(s: string, g: LocGroup)
    ensures LocMatch(s) == Some(g) <==> WellShaped(g) && StartsWith(s, LocTag(g))
  {
    if LocMatch(s) == Some(g) {
      LocMatchShaped(s);
      LocMatchPieces(s);
      LocTagFromPieces(s, g);
    }
    if WellShaped(g) && StartsWith(s, LocTag(g)) {
      LocTagToPieces(s, g);
      LocMatchComplete(s, g);
    }
  }

  /** re.search: the first index at or after i where the location pattern matches, with the fields it captures there. */
  function LocSearch(s: string, i: nat): (r: Option<(nat, LocGroup)>)
    requires i <= |s|
    ensures r.Some? ==> i <= r.value.0 <= |s|
    decreases |s| - i
  {
    match LocMatch(s[i..])
    case Some(g) => Some((i, g))
    case None => if i == |s| then None else LocSearch(s, i + 1)
  }

  /** What the search returns is a match of the pattern at that index. */
  lemma {:induction false} LocSearchFinds(s: string, i: nat)
    requires i <= |s|
    ensures var r := LocSearch(s, i); r.Some? ==> LocMatch(s[r.value.0..]) == Some(r.value.1)
    decreases |s| - i
  {
    if LocMatch(s[i..]).None? && i < |s| {
      LocSearchFinds(s, i + 1);
    }
  }

  /** No match lies between i and the index the search returns. */
  lemma {:induction false} LocSearchNoneBefore(s: string, i: nat)
    requires i <= |s| && LocSearch(s, i).Some?
    ensures forall j :: i <= j < LocSearch(s, i).value.0 ==> LocMatch(s[j..]).None?
    decreases |s| - i
  {
    if LocMatch(s[i..]).None? {
      LocSearchNoneBefore(s, i + 1);
    }
  }

  /** When the search returns nothing, no match lies anywhere from i on. */
  lemma {:induction false} LocSearchNoneAtAll(s: string, i: nat)
    requires i <= |s| && LocSearch(s, i).None?
    ensures forall j :: i <= j <= |s| ==> LocMatch(s[j..]).None?
    decreases |s| - i
  {
    if i < |s| {
      LocSearchNoneAtAll(s, i + 1);
    }
  }

  /** The search finds the leftmost match: there is none before the index it returns, and none at all when it returns nothing. */
  lemma LocSearchLeftmost(s: string, i: nat)
    requires i <= |s|
    ensures LocSearch(s, i).Some? ==> forall j :: i <= j < LocSearch(s, i).value.0 ==> LocMatch(s[j..]).None?
    ensures LocSearch(s, i).None? ==> forall j :: i <= j <= |s| ==> LocMatch(s[j..]).None?
  {
    if LocSearch(s, i).Some? {
      LocSearchNoneBefore(s, i);
    } else {
      LocSearchNoneAtAll(s, i);
    }
  }

  /** One "UNIT=location" pair of the group. */
  function Pair(unit: string, field: string): string {
    unit + "=" + field
  }

  /** loc_match.group(1). */
  function Group(g: LocGroup): string {
    Pair("SAM", g.sam) + ", " + Pair("DAVE", g.dave) + ", " + Pair("MIKE", g.mike)
  }

  /** `unit, loc = pair.split("=")`: a pair yields an assignment only when it splits into exactly two parts. */
  function Assignment(pair: string): Option<(string, string)> {
    var parts := Split(pair, "=");
    if |parts| == 2 then Some((parts[0], Strip(parts[1]))) else None
  }

  /** The assignment each pair makes, in order. */
  function Assignments(pairs: seq<string>): (r: seq<Option<(string, string)>>)
    ensures |r| == |pairs|
  {
    seq(|pairs|, n requires 0 <= n < |pairs| => Assignment(pairs[n]))
  }

  /**
   * The loop over the assignments: each locations[unit] = loc.strip() is made in order; at the
   * first pair that does not split into two parts the ValueError ends the loop, with the earlier
   * assignments already made. The flag is false exactly in that case.
   */
  function Assign(locs: Dict<string, string>, assignments: seq<Option<(string, string)>>): (Dict<string, string>, bool)
    decreases |assignments|
  {
    if assignments == [] then (locs, true)
    else match assignments[0]
      case None => (locs, false)
      case Some(a) => Assign(Put(locs, a.0, a.1), assignments[1..])
  }

  /** The loop over the pairs of the group. */
  function ApplyPairs(locs: Dict<string, string>, pairs: seq<string>): (Dict<string, string>, bool) {
    Assign(locs, Assignments(pairs))
  }

  /** The loop finishes exactly when every pair splits into two parts. */
  lemma {:induction false} AssignOk(locs: Dict<string, string>, assignments: seq<Option<(string, string)>>)
    ensures Assign(locs, assignments).1 <==> forall n :: 0 <= n < |assignments| ==> assignments[n].Some?
    decreases |assignments|
  {
    if assignments != [] && assignments[0].Some? {
      var a := assignments[0].value;
      AssignOk(Put(locs, a.0, a.1), assignments[1..]);
      assert forall n :: 1 <= n < |assignments| ==> assignments[n] == assignments[1..][n - 1];
    }
  }

  /** The ValueError is raised exactly when some pair does not split into two parts. */
  lemma ApplyPairsOk(locs: Dict<string, string>, pairs: seq<string>)
    ensures ApplyPairs(locs, pairs).1 <==> forall n :: 0 <= n < |pairs| ==> Assignment(pairs[n]).Some?
  {
    AssignOk(locs, Assignments(pairs));
    assert forall n :: 0 <= n < |pairs| ==> Assignments(pairs)[n] == Assignment(pairs[n]);
  }

  /** The location step of a reply: the locations afterwards, and false when the ValueError is raised. */
  function LocationsAfter(locs: Dict<string, string>, reply: string): (Dict<string, string>, bool) {
    match LocSearch(reply, 0)
    case None => (locs, true)
    case Some(m) => ApplyPairs(locs, Split(Group(m.1), ", "))
  }

  /** A field without '=' after its unit's name splits into the name and the field. */
  lemma SplitPair(unit: string, field: string)
    requires '=' !in unit && '=' !in field
    ensures Split(Pair(unit, field), "=") == [unit, field]
  {
    NoOccurrenceInside(unit, "=", field);
    SplitAtFirst(unit, "=", field);
    SplitNoSeparator(field, "=");
  }

  /** Such a pair assigns the stripped field to the unit. */
  lemma PairAssigns(unit: string, field: string)
    requires '=' !in unit && '=' !in field
    ensures Assignment(Pair(unit, field)) == Some((unit, Strip(field)))
  {
    SplitPair(unit, field);
  }

  /** The group of well-shaped fields, none holding ", ", splits into its three pairs. */
  lemma SplitGroup(g: LocGroup)
    requires WellShaped(g) && !Contains(g.mike, ", ")
    ensures Split(Group(g), ", ") == [Pair("SAM", g.sam), Pair("DAVE", g.dave), Pair("MIKE", g.mike)]
  {
    var a, b, c := Pair("SAM", g.sam), Pair("DAVE", g.dave), Pair("MIKE", g.mike);
    assert Group(g) == a + ", " + (b + ", " + c);
    NoOccurrenceInside(a, ", ", b + ", " + c);
    SplitAtFirst(a, ", ", b + ", " + c);
    SplitGroupTail(g);
  }

  /** The DAVE and MIKE pairs split into two. */
  lemma SplitGroupTail(g: LocGroup)
    requires ',' !in g.dave && !Contains(g.mike, ", ")
    ensures Split(Pair("DAVE", g.dave) + ", " + Pair("MIKE", g.mike), ", ") == [Pair("DAVE", g.dave), Pair("MIKE", g.mike)]
  {
    var b, c := Pair("DAVE", g.dave), Pair("MIKE", g.mike);
    NoOccurrenceInside(b, ", ", c);
    SplitAtFirst(b, ", ", c);
    NotContainsAfterPrefix("MIKE" + "=", g.mike, ", ");
    SplitWhole(c, ", ");
  }

  /** Three assignments are all made, in order. */
  lemma AssignThree(locs: Dict<string, string>, a0: (string, string), a1: (string, string), a2: (string, string))
    ensures Assign(locs, [Some(a0), Some(a1), Some(a2)]) == (Put(Put(Put(locs, a0.0, a0.1), a1.0, a1.1), a2.0, a2.1), true)
  {
    var l1 := Put(locs, a0.0, a0.1);
    var l2 := Put(l1, a1.0, a1.1);
    var l3 := Put(l2, a2.0, a2.1);
    assert [Some(a0), Some(a1), Some(a2)][1..] == [Some(a1), Some(a2)];
    assert [Some(a1), Some(a2)][1..] == [Some(a2)];
    assert Assign(l2, [Some(a2)]) == Assign(l3, []);
  }

  /** Two assignments are made, then a failed pair raises the ValueError. */
  lemma AssignTwoThenFail(locs: Dict<string, string>, a0: (string, string), a1: (string, string))
    ensures Assign(locs, [Some(a0), Some(a1), None]) == (Put(Put(locs, a0.0, a0.1), a1.0, a1.1), false)
  {
    var l1 := Put(locs, a0.0, a0.1);
    var l2 := Put(l1, a1.0, a1.1);
    assert [Some(a0), Some(a1), None][1..] == [Some(a1), None];
    assert [Some(a1), None][1..] == [None];
    assert Assign(l2, [None]) == (l2, false);
  }

  /** Three pairs that each split into two are all assigned, in order. */
  lemma ApplyThree(locs: Dict<string, string>, p0: string, p1: string, p2: string, a0: (string, string), a1: (string, string), a2: (string, string))
    requires Assignment(p0) == Some(a0) && Assignment(p1) == Some(a1) && Assignment(p2) == Some(a2)
    ensures ApplyPairs(locs, [p0, p1, p2]) == (Put(Put(Put(locs, a0.0, a0.1), a1.0, a1.1), a2.0, a2.1), true)
  {
    assert Assignments([p0, p1, p2]) == [Some(a0), Some(a1), Some(a2)];
    AssignThree(locs, a0, a1, a2);
  }

  /** Two pairs that split into two are assigned, then a third that does not raises the ValueError. */
  lemma ApplyTwoThenFail(locs: Dict<string, string>, p0: string, p1: string, p2: string, a0: (string, string), a1: (string, string))
    requires Assignment(p0) == Some(a0) && Assignment(p1) == Some(a1) && Assignment(p2) == None
    ensures ApplyPairs(locs, [p0, p1, p2]) == (Put(Put(locs, a0.0, a0.1), a1.0, a1.1), false)
  {
    assert Assignments([p0, p1, p2]) == [Some(a0), Some(a1), None];
    AssignTwoThenFail(locs, a0, a1);
  }

  /** A pair whose field holds '=' splits into more than two parts, so it assigns nothing. */
  lemma PairCrashes(unit: string, field: string)
    requires '=' !in unit && '=' in field
    ensures Assignment(Pair(unit, field)).None?
  {
    ContainsChar(field, '=');
    NoOccurrenceInside(unit, "=", field);
    SplitAtFirst(unit, "=", field);
    SplitCuts(field, "=");
  }

  /** The unit names hold no '='. */
  lemma UnitsPlain()
    ensures '=' !in "SAM" && '=' !in "DAVE" && '=' !in "MIKE"
  {
  }

  /** The three pairs of a group whose fields hold no '=' (the last no ", ") are all written, in order. */
  lemma ApplyGroup(locs: Dict<string, string>, g: LocGroup)
    requires WellShaped(g) && '=' !in g.sam && '=' !in g.dave && '=' !in g.mike && !Contains(g.mike, ", ")
    ensures ApplyPairs(locs, Split(Group(g), ", "))
         == (Put(Put(Put(locs, "SAM", Strip(g.sam)), "DAVE", Strip(g.dave)), "MIKE", Strip(g.mike)), true)
  {
    SplitGroup(g);
    UnitsPlain();
    PairAssigns("SAM", g.sam);
    PairAssigns("DAVE", g.dave);
    PairAssigns("MIKE", g.mike);
    ApplyThree(locs, Pair("SAM", g.sam), Pair("DAVE", g.dave), Pair("MIKE", g.mike),
      ("SAM", Strip(g.sam)), ("DAVE", Strip(g.dave)), ("MIKE", Strip(g.mike)));
  }

  /**
   * A tag whose fields hold no '=' (and whose last field holds no ", ") sets SAM, DAVE and MIKE,
   * in that order, to their stripped fields, and nothing else.
   */
  lemma LocationsFromTag(locs: Dict<string, string>, reply: string, i: nat, g: LocGroup)
    requires LocSearch(reply, 0) == Some((i, g))
    requires '=' !in g.sam && '=' !in g.dave && '=' !in g.mike && !Contains(g.mike, ", ")
    ensures LocationsAfter(locs, reply)
         == (Put(Put(Put(locs, "SAM", Strip(g.sam)), "DAVE", Strip(g.dave)), "MIKE", Strip(g.mike)), true)
  {
    LocSearchFinds(reply, 0);
    LocMatchShaped(reply[i..]);
    ApplyGroup(locs, g);
  }

  /** A MIKE field holding '=' makes the third pair raise the ValueError, after SAM and DAVE are written. */
  lemma ApplyGroupCrash(locs: Dict<string, string>, g: LocGroup)
    requires WellShaped(g) && '=' !in g.sam && '=' !in g.dave && '=' in g.mike && !Contains(g.mike, ", ")
    ensures ApplyPairs(locs, Split(Group(g), ", ")) == (Put(Put(locs, "SAM", Strip(g.sam)), "DAVE", Strip(g.dave)), false)
  {
    SplitGroup(g);
    UnitsPlain();
    PairAssigns("SAM", g.sam);
    PairAssigns("DAVE", g.dave);
    PairCrashes("MIKE", g.mike);
    ApplyTwoThenFail(locs, Pair("SAM", g.sam), Pair("DAVE", g.dave), Pair("MIKE", g.mike),
      ("SAM", Strip(g.sam)), ("DAVE", Strip(g.dave)));
  }

  /**
   * A MIKE field holding '=' raises the ValueError at the third pair, after SAM and DAVE have
   * already been written.
   */
  lemma LocationsCrash(locs: Dict<string, string>, reply: string, i: nat, g: LocGroup)
    requires LocSearch(reply, 0) == Some((i, g))
    requires '=' !in g.sam && '=' !in g.dave && '=' in g.mike && !Contains(g.mike, ", ")
    ensures LocationsAfter(locs, reply) == (Put(Put(locs, "SAM", Strip(g.sam)), "DAVE", Strip(g.dave)), false)
  {
    LocSearchFinds(reply, 0);
    LocMatchShaped(reply[i..]);
    ApplyGroupCrash(locs, g);
  }

  // ---------------------------------------------------------------------------------------
  // \[OBJ_DATA: (obj_\w+)=TRUE\]
  // ---------------------------------------------------------------------------------------

  /** \w, on ASCII. */
  predicate IsWordChar(c: char) {
    ('a' <= c <= 'z') || ('A' <= c <= 'Z') || ('0' <= c <= '9') || c == '_'
  }

  /** The end of the run of word characters that starts at i. */
  function WordEnd(s: string, i: nat): (r: nat)
    requires i <= |s|
    ensures i <= r <= |s|
    decreases |s| - i
  {
    if i < |s| && IsWordChar(s[i]) then WordEnd(s, i + 1) else i
  }

  /** WordEnd stops at the first character that is not a word character. */
  lemma {:induction false} WordEndSpec(s: string, i: nat)
    requires i <= |s|
    ensures forall m :: i <= m < WordEnd(s, i) ==> IsWordChar(s[m])
    ensures WordEnd(s, i) == |s| || !IsWordChar(s[WordEnd(s, i)])
    decreases |s| - i
  {
    if i < |s| && IsWordChar(s[i]) {
      WordEndSpec(s, i + 1);
    }
  }

  /** A run of word characters that ends before a non-word character is the one WordEnd finds. */
  lemma {:induction false} WordEndAt(s: string, i: nat, k: nat)
    requires i <= k < |s| && !IsWordChar(s[k])
    requires forall m :: i <= m < k ==> IsWordChar(s[m])
    ensures WordEnd(s, i) == k
    decreases k - i
  {
    if i < k {
      WordEndAt(s, i + 1, k);
    }
  }

  /**
   * The length of the objective pattern's match at the start of s. \w+ is greedy and must be
   * followed by '=', which is no word character, so it is the whole run of word characters.
   */
  function ObjMatch(s: string): (r: Option<nat>)
    ensures r.Some? ==> 22 <= r.value <= |s|
  {
    if !StartsWith(s, "[OBJ_DATA: obj_") then None
    else
      var e := WordEnd(s, 15);
      if e == 15 || !OccursAt(s, "=TRUE]", e) then None else Some(e + 6)
  }

  /** An objective id as the pattern captures it: "obj_" and at least one more word character. */
  predicate IsObjId(id: string) {
    |id| >= 5 && id[..4] == "obj_" && forall k :: 0 <= k < |id| ==> IsWordChar(id[k])
  }

  /** The tag text for an objective id. */
  function ObjTag(id: string): string {
    "[OBJ_DATA: " + id + "=TRUE]"
  }

  /** A match is the tag of the id it captures. */
  lemma ObjMatchSound(s: string)
    requires ObjMatch(s).Some?
    ensures var n := ObjMatch(s).value; IsObjId(s[11..n - 6]) && s[..n] == ObjTag(s[11..n - 6])
  {
    ObjMatchId(s);
    ObjMatchText(s);
  }

  /** The id a match captures is an objective id. */
  lemma ObjMatchId(s: string)
    requires ObjMatch(s).Some?
    ensures var n := ObjMatch(s).value; IsObjId(s[11..n - 6])
  {
    var n := ObjMatch(s).value;
    WordEndSpec(s, 15);
    assert s[11..n - 6][..4] == s[11..15];
  }

  /** A match's text is the tag of the id it captures. */
  lemma ObjMatchText(s: string)
    requires ObjMatch(s).Some?
    ensures var n := ObjMatch(s).value; s[..n] == ObjTag(s[11..n - 6])
  {
    var n := ObjMatch(s).value;
    var e := n - 6;
    assert s[..11] == "[OBJ_DATA: " && s[e..n] == "=TRUE]";
    assert s[..n] == s[..11] + s[11..e] + s[e..n];
  }

  /** The tag of an objective id at the start of s is matched, with its whole length. */
  lemma ObjMatchComplete(s: string, id: string)
    requires IsObjId(id) && StartsWith(s, ObjTag(id))
    ensures ObjMatch(s) == Some(|ObjTag(id)|)
  {
    var t := ObjTag(id);
    var e := 11 + |id|;
    assert s[..|t|] == t;
    assert forall m :: 0 <= m < |t| ==> s[m] == t[m];
    assert s[..15] == "[OBJ_DATA: obj_" by {
      assert s[..15] == t[..15];
      assert t[11..15] == id[..4];
    }
    assert s[e..e + 6] == "=TRUE]" by { assert s[e..e + 6] == t[e..e + 6]; }
    forall m | 15 <= m < e ensures IsWordChar(s[m]) {
      assert s[m] == id[m - 11];
    }
    WordEndAt(s, 15, e);
  }

  /** A match has '[' only at its first character. */
  lemma ObjMatchNoInnerBracket(s: string, k: nat)
    requires ObjMatch(s).Some? && 1 <= k < ObjMatch(s).value
    ensures s[k] != '['
  {
    var n := ObjMatch(s).value;
    WordEndSpec(s, 15);
    if k < 15 {
      assert s[..15][k] == s[k];
    } else if k >= n - 6 {
      assert s[n - 6..n][k - (n - 6)] == s[k];
    }
  }

  /** re.findall: the captured ids left to right, each search resuming at the end of the last match. */
  function ObjIds(s: string): seq<string>
    decreases |s|
  {
    if s == [] then []
    else match ObjMatch(s)
      case Some(n) => [s[11..n - 6]] + ObjIds(s[n..])
      case None => ObjIds(s[1..])
  }

  /** Every id found is an objective id whose tag occurs in s. */
  lemma {:induction false} ObjIdsSound(s: string)
    ensures forall n :: 0 <= n < |ObjIds(s)| ==> IsObjId(ObjIds(s)[n]) && Contains(s, ObjTag(ObjIds(s)[n]))
    decreases |s|
  {
    if s != [] {
      match ObjMatch(s)
      case Some(len) =>
        var ids := ObjIds(s);
        var rest := ObjIds(s[len..]);
        assert ids == [s[11..len - 6]] + rest;
        ObjMatchSound(s);
        ObjIdsSound(s[len..]);
        forall n | 0 <= n < |ids| ensures IsObjId(ids[n]) && Contains(s, ObjTag(ids[n])) {
          if n == 0 {
            ContainsMiddle([], ObjTag(ids[0]), s[len..]);
            assert s == [] + s[..len] + s[len..];
          } else {
            assert ids[n] == rest[n - 1];
            ContainsSuffix(s, len, ObjTag(ids[n]));
          }
        }
      case None =>
        ObjIdsSound(s[1..]);
        forall n | 0 <= n < |ObjIds(s)| ensures Contains(s, ObjTag(ObjIds(s)[n])) {
          ContainsSuffix(s, 1, ObjTag(ObjIds(s)[n]));
        }
    }
  }

  /** What occurs in a suffix of s occurs in s. */
  lemma ContainsSuffix(s: string, k: nat, t: string)
    requires k <= |s| && Contains(s[k..], t)
    ensures Contains(s, t)
  {
    var j := FindFrom(s[k..], t, 0).value;
    assert s[k..][j..j + |t|] == s[k + j..k + j + |t|];
    assert OccursAt(s, t, k + j);
    FindFromFirst(s, t, 0);
  }

  /** The tag of an objective id at the start of s is matched, and the match captures that id. */
  lemma ObjTagAtHead(s: string, id: string)
    requires IsObjId(id) && OccursAt(s, ObjTag(id), 0)
    ensures ObjMatch(s) == Some(|ObjTag(id)|) && s[11..|ObjTag(id)| - 6] == id
  {
    var t := ObjTag(id);
    assert s[..|t|] == t;
    ObjMatchComplete(s, id);
    assert s[11..|t| - 6] == t[11..|t| - 6];
  }

  /** A tag after the start of s lies wholly after the match at the start: a match has no inner '['. */
  lemma ObjTagAfterMatch(s: string, i: nat, id: string)
    requires IsObjId(id) && OccursAt(s, ObjTag(id), i) && 0 < i && ObjMatch(s).Some?
    ensures ObjMatch(s).value <= i
  {
    var t := ObjTag(id);
    assert s[i..i + |t|][0] == s[i];
    if i < ObjMatch(s).value {
      ObjMatchNoInnerBracket(s, i);
    }
  }

  /** What occurs at i in s occurs at i - k in s[k..]. */
  lemma OccursAtDrop(s: string, t: string, i: nat, k: nat)
    requires OccursAt(s, t, i) && k <= i
    ensures OccursAt(s[k..], t, i - k)
  {
    assert s[k..][i - k..i - k + |t|] == s[i..i + |t|];
  }

  /** Every objective tag in s has its id found: the matches before it cannot overlap it. */
  lemma {:induction false} ObjIdsComplete(s: string, i: nat, id: string)
    requires IsObjId(id) && OccursAt(s, ObjTag(id), i)
    ensures id in ObjIds(s)
    decreases |s|
  {
    var t := ObjTag(id);
    match ObjMatch(s)
    case Some(len) =>
      if i == 0 {
        ObjTagAtHead(s, id);
      } else {
        ObjTagAfterMatch(s, i, id);
        OccursAtDrop(s, t, i, len);
        ObjIdsComplete(s[len..], i - len, id);
      }
    case None =>
      if i == 0 {
        ObjTagAtHead(s, id);
      }
      OccursAtDrop(s, t, i, 1);
      ObjIdsComplete(s[1..], i - 1, id);
  }

  // ---------------------------------------------------------------------------------------
  // re.sub(r"\[(LOC_DATA|OBJ_DATA):.*?\]", "", reply).strip()
  // ---------------------------------------------------------------------------------------

  /** The first index at or after i holding ']' or a newline ('.' does not match a newline). */
  function CloseEnd(s: string, i: nat): (r: nat)
    requires i <= |s|
    ensures i <= r <= |s|
    decreases |s| - i
  {
    if i == |s| || s[i] == ']' || s[i] == '\n' then i else CloseEnd(s, i + 1)
  }

  /** CloseEnd stops at the first ']' or newline. */
  lemma {:induction false} CloseEndSpec(s: string, i: nat)
    requires i <= |s|
    ensures forall m :: i <= m < CloseEnd(s, i) ==> s[m] != ']' && s[m] != '\n'
    ensures CloseEnd(s, i) == |s| || s[CloseEnd(s, i)] == ']' || s[CloseEnd(s, i)] == '\n'
    decreases |s| - i
  {
    if i < |s| && s[i] != ']' && s[i] != '\n' {
      CloseEndSpec(s, i + 1);
    }
  }

  /** A run free of ']' and newlines that ends at ']' is the one CloseEnd finds. */
  lemma {:induction false} CloseEndAt(s: string, i: nat, k: nat)
    requires i <= k < |s| && s[k] == ']'
    requires forall m :: i <= m < k ==> s[m] != ']' && s[m] != '\n'
    ensures CloseEnd(s, i) == k
    decreases k - i
  {
    if i < k {
      CloseEndAt(s, i + 1, k);
    }
  }

  /** The two tag kinds the substitution removes. */
  predicate IsTagKind(kind: string) {
    kind == "LOC_DATA" || kind == "OBJ_DATA"
  }

  /** The length of the substitution pattern's match at the start of s: the lazy .*? stops at the first ']'. */
  function TagLen(s: string): (r: Option<nat>)
    ensures r.Some? ==> 11 <= r.value <= |s|
  {
    if !(StartsWith(s, "[LOC_DATA:") || StartsWith(s, "[OBJ_DATA:")) then None
    else
      var k := CloseEnd(s, 10);
      if k < |s| && s[k] == ']' then Some(k + 1) else None
  }

  /** A tag as the substitution pattern sees it: a kind, a colon, a body on one line without ']', then ']'. */
  function StripTag(kind: string, body: string): string {
    "[" + kind + ":" + body + "]"
  }

  /** Every such tag at the start of s is matched with its whole length. */
  lemma TagLenComplete(s: string, kind: string, body: string)
    requires IsTagKind(kind) && ']' !in body && '\n' !in body
    requires StartsWith(s, StripTag(kind, body))
    ensures TagLen(s) == Some(|StripTag(kind, body)|)
  {
    var t := StripTag(kind, body);
    var k := 10 + |body|;
    assert s[..|t|] == t;
    assert forall m :: 0 <= m < |t| ==> s[m] == t[m];
    assert s[..10] == t[..10];
    assert t[..10] == "[" + kind + ":";
    forall m | 10 <= m < k ensures s[m] != ']' && s[m] != '\n' {
      assert s[m] == body[m - 10];
    }
    assert s[k] == t[k];
    CloseEndAt(s, 10, k);
  }

  /** Every match is such a tag. */
  lemma TagLenSound(s: string)
    requires TagLen(s).Some?
    ensures var n := TagLen(s).value;
      exists kind :: IsTagKind(kind) && s[..n] == StripTag(kind, s[10..n - 1])
        && ']' !in s[10..n - 1] && '\n' !in s[10..n - 1]
  {
    var n := TagLen(s).value;
    CloseEndSpec(s, 10);
    var kind := s[1..9];
    assert s[..10] == "[" + kind + ":";
    assert s[..n] == s[..10] + s[10..n - 1] + s[n - 1..n];
    assert IsTagKind(kind);
  }

  /** A match begins with '['. */
  lemma TagStartsWithBracket(s: string)
    requires s != [] && s[0] != '['
    ensures TagLen(s).None?
  {
  }

  /** The substitution, one pass left to right: each match is dropped, every other character kept. */
  function Scrub(s: string): string
    decreases |s|
  {
    if s == [] then []
    else match TagLen(s)
      case Some(n) => Scrub(s[n..])
      case None => [s[0]] + Scrub(s[1..])
  }

  /** Where no tag begins, the character there is kept and scanning moves on by one. */
  lemma ScrubKeepsAt(s: string, i: nat)
    requires i < |s| && TagLen(s[i..]).None?
    ensures Scrub(s[i..]) == [s[i]] + Scrub(s[i + 1..])
  {
    assert s[i..][0] == s[i] && s[i..][1..] == s[i + 1..];
  }

  /**
   * A prefix at none of whose indices a tag begins passes through the substitution unchanged,
   * in order, whatever '[' it holds.
   */
  lemma {:induction false} ScrubUntagged(s: string, k: nat)
    requires k <= |s| && forall j :: 0 <= j < k ==> TagLen(s[j..]).None?
    ensures Scrub(s) == s[..k] + Scrub(s[k..])
    decreases k
  {
    if k == 0 {
      assert s[..0] == [] && s[0..] == s;
    } else {
      ScrubUntagged(s, k - 1);
      ScrubExtend(s, k - 1);
    }
  }

  /** One more untagged character joins the unchanged prefix. */
  lemma ScrubExtend(s: string, i: nat)
    requires i < |s| && TagLen(s[i..]).None?
    requires Scrub(s) == s[..i] + Scrub(s[i..])
    ensures Scrub(s) == s[..i + 1] + Scrub(s[i + 1..])
  {
    ScrubKeepsAt(s, i);
    PrefixGrows(s, i, Scrub(s[i..]), Scrub(s[i + 1..]));
  }

  /** A prefix followed by the next character and a rest is the longer prefix followed by the rest. */
  lemma PrefixGrows(s: string, i: nat, x: string, y: string)
    requires i < |s| && x == [s[i]] + y
    ensures s[..i] + x == s[..i + 1] + y
  {
    assert s[..i] + [s[i]] == s[..i + 1];
  }

  /** Text without '[' passes through the substitution unchanged. */
  lemma ScrubPlain(a: string, b: string)
    requires '[' !in a
    ensures Scrub(a + b) == a + Scrub(b)
  {
    var s := a + b;
    forall j | 0 <= j < |a| ensures TagLen(s[j..]).None? {
      assert s[j..][0] == a[j];
      TagStartsWithBracket(s[j..]);
    }
    ScrubUntagged(s, |a|);
    assert s[..|a|] == a && s[|a|..] == b;
  }

  /** A tag is dropped, and the text after it is scrubbed from its start. */
  lemma ScrubTag(kind: string, body: string, b: string)
    requires IsTagKind(kind) && ']' !in body && '\n' !in body
    ensures Scrub(StripTag(kind, body) + b) == Scrub(b)
  {
    var t := StripTag(kind, body);
    assert (t + b)[..|t|] == t;
    TagLenComplete(t + b, kind, body);
    assert (t + b)[|t|..] == b;
  }

  /** An objective tag is one the substitution drops. */
  lemma ObjTagIsStripTag(id: string)
    requires IsObjId(id)
    ensures ObjTag(id) == StripTag("OBJ_DATA", " " + id + "=TRUE")
    ensures ']' !in " " + id + "=TRUE" && '\n' !in " " + id + "=TRUE"
  {
  }

  /** A well-shaped location tag whose fields hold no ']' or newline is one the substitution drops. */
  lemma LocTagIsStripTag(g: LocGroup)
    requires WellShaped(g)
    requires ']' !in g.sam && ']' !in g.dave && '\n' !in g.sam && '\n' !in g.dave && '\n' !in g.mike
    ensures LocTag(g) == StripTag("LOC_DATA", " " + Group(g))
    ensures ']' !in " " + Group(g) && '\n' !in " " + Group(g)
  {
    GroupPlain(g);
    TagRegroup("[" + "LOC_DATA" + ":", " ", "SAM" + "=", ", ", "DAVE" + "=", "MIKE" + "=", g.sam, g.dave, g.mike, "]");
    LocTagLiterals();
  }

  /** The location tag's concatenation, regrouped around its three fields. */
  lemma TagRegroup(o: string, sp: string, a: string, sep: string, b: string, c: string, s: string, d: string, m: string, close: string)
    ensures o + (sp + ((((a + s) + sep) + (b + d)) + sep + (c + m))) + close
         == (o + sp + a) + (s + ((sep + b) + (d + ((sep + c) + (m + close)))))
  {
  }

  /** The literal pieces of the location tag, joined. */
  lemma LocTagLiterals()
    ensures "[" + "LOC_DATA" + ":" + " " + ("SAM" + "=") == "[LOC_DATA: SAM="
    ensures ", " + ("DAVE" + "=") == ", DAVE="
    ensures ", " + ("MIKE" + "=") == ", MIKE="
  {
  }

  /** Fields without ']' or newline make a group without them. */
  lemma GroupPlain(g: LocGroup)
    requires ']' !in g.sam && ']' !in g.dave && ']' !in g.mike
    requires '\n' !in g.sam && '\n' !in g.dave && '\n' !in g.mike
    ensures ']' !in " " + Group(g) && '\n' !in " " + Group(g)
  {
  }

  /** clean_response. */
  function StripTags(reply: string): string {
    Strip(Scrub(reply))
  }

  // ---------------------------------------------------------------------------------------
  // win_trigger.lower() in response_text.lower()
  // ---------------------------------------------------------------------------------------

  const WinTrigger: string := "Mission Complete: Assets in Transit"

  /** The win test. */
  predicate WinTriggered(reply: string) {
    Contains(Lower(reply), Lower(WinTrigger))
  }

  /** The stretch of the reply at i lowers to the lowered trigger. */
  ghost predicate TriggerAt(reply: string, i: nat) {
    i + |WinTrigger| <= |reply| && Lower(reply[i..i + |WinTrigger|]) == Lower(WinTrigger)
  }

  /** The reply wins exactly when some stretch of it lowers to the lowered trigger: the test ignores case. */
  lemma WinTriggeredIff(reply: string)
    ensures WinTriggered(reply) <==> exists i: nat :: TriggerAt(reply, i)
  {
    var n := |WinTrigger|;
    var t := Lower(WinTrigger);
    if WinTriggered(reply) {
      var i := FindFrom(Lower(reply), t, 0).value;
      LowerSlice(reply, i, i + n);
      assert TriggerAt(reply, i);
    }
    if exists i: nat :: TriggerAt(reply, i) {
      var i: nat :| TriggerAt(reply, i);
      LowerSlice(reply, i, i + n);
      assert OccursAt(Lower(reply), t, i);
      FindFromFirst(Lower(reply), t, 0);
    }
  }

  /** Any casing of the trigger anywhere in the reply wins. */
  lemma WinInAnyCase(a: string, w: string, b: string)
    requires Lower(w) == Lower(WinTrigger)
    ensures WinTriggered(a + w + b)
  {
    LowerConcat(a + w, b);
    LowerConcat(a, w);
    ContainsMiddle(Lower(a), Lower(w), Lower(b));
  }
}
