/**
 * parse_operative_dialogue: the cleaned reply is cut into "SAM:", "DAVE:" and "MIKE:"
 * segments by the pattern (SAM|DAVE|MIKE):\s*(.*?)(?=\s*(?:SAM|DAVE|MIKE):|$)
 * under DOTALL, each utterance is cleaned, and a dict from speaker to utterance is built,
 * a later segment of a speaker overwriting an earlier one.
 */
module Dialogue {
  import opened Options
  import opened Text
  import opened OrderedDict

  const Speakers: seq<string> := ["SAM", "DAVE", "MIKE"]

  /** The speaker whose label "NAME:" begins at index i of s, if any. */
  function LabelAt(s: string, i: nat): (r: Option<string>) {
    if OccursAt(s, "SAM:", i) then Some("SAM")
    else if OccursAt(s, "DAVE:", i) then Some("DAVE")
    else if OccursAt(s, "MIKE:", i) then Some("MIKE")
    else None
  }

  /** A label found is one of the speakers followed by ':'; none is found exactly when no speaker's label is there. */
  lemma LabelAtSpec(s: string, i: nat)
    ensures var r := LabelAt(s, i); r.Some? ==> r.value in Speakers && OccursAt(s, r.value + ":", i)
    ensures LabelAt(s, i).None? <==> !OccursAt(s, "SAM:", i) && !OccursAt(s, "DAVE:", i) && !OccursAt(s, "MIKE:", i)
  {
    assert "SAM" + ":" == "SAM:" && "DAVE" + ":" == "DAVE:" && "MIKE" + ":" == "MIKE:";
  }

  ghost predicate NoLabelIn(s: string, a: nat, b: nat) {
    forall q :: a <= q < b ==> LabelAt(s, q).None?
  }

  /** The end of the run of whitespace that starts at i (the greedy \s*). */
  function SkipSpace(s: string, i: nat): (r: nat)
    requires i <= |s|
    ensures i <= r <= |s|
    decreases |s| - i
  {
    if i < |s| && IsSpace(s[i]) then SkipSpace(s, i + 1) else i
  }

  /** SkipSpace stops at the first non-whitespace character: the run it skips is all whitespace and maximal. */
  lemma {:induction false} SkipSpaceSpec(s: string, i: nat)
    requires i <= |s|
    ensures forall k :: i <= k < SkipSpace(s, i) ==> IsSpace(s[k])
    ensures SkipSpace(s, i) == |s| || !IsSpace(s[SkipSpace(s, i)])
    decreases |s| - i
  {
    if i < |s| && IsSpace(s[i]) {
      SkipSpaceSpec(s, i + 1);
    }
  }

  /** `$` without MULTILINE: the end of the text, or just before a final newline. */
  predicate AtEnd(s: string, j: nat) {
    j == |s| || (j + 1 == |s| && s[j] == '\n')
  }

  /** The lookahead (?=\s*(?:SAM|DAVE|MIKE):|$) holds at j. */
  predicate StopAt(s: string, j: nat)
    requires j <= |s|
  {
    AtEnd(s, j) || LabelAt(s, SkipSpace(s, j)).Some?
  }

  /** The lookahead as the pattern states it: some run of whitespace, then a label. */
  ghost predicate LookaheadMatches(s: string, j: nat)
    requires j <= |s|
  {
    AtEnd(s, j)
    || exists k :: j <= k <= |s| && (forall m :: j <= m < k ==> IsSpace(s[m])) && LabelAt(s, k).Some?
  }

  /** A label begins with a letter, so never with whitespace. */
  lemma LabelStartsWithLetter(s: string, k: nat)
    requires LabelAt(s, k).Some?
    ensures k < |s| && !IsSpace(s[k])
  {
    var t := LabelAt(s, k).value + ":";
    assert s[k..k + |t|][0] == s[k];
  }

  /** A whitespace run from j that ends at a non-whitespace index k is the one SkipSpace finds. */
  lemma {:induction false} SkipSpaceEndsAt(s: string, j: nat, k: nat)
    requires j <= k < |s| && !IsSpace(s[k])
    requires forall m :: j <= m < k ==> IsSpace(s[m])
    ensures SkipSpace(s, j) == k
    decreases k - j
  {
    if j < k {
      SkipSpaceEndsAt(s, j + 1, k);
    }
  }

  /** StopAt decides the lookahead: a label can only follow the whole whitespace run. */
  lemma StopAtIsLookahead(s: string, j: nat)
    requires j <= |s|
    ensures StopAt(s, j) <==> LookaheadMatches(s, j)
  {
    SkipSpaceSpec(s, j);
    if !AtEnd(s, j) && LookaheadMatches(s, j) {
      var k :| j <= k <= |s| && (forall m :: j <= m < k ==> IsSpace(s[m])) && LabelAt(s, k).Some?;
      LabelStartsWithLetter(s, k);
      SkipSpaceEndsAt(s, j, k);
    }
  }

  /** The lazy (.*?): the first index at or after i where the lookahead holds. */
  function FirstStop(s: string, i: nat): (r: nat)
    requires i <= |s|
    ensures i <= r <= |s|
    decreases |s| - i
  {
    if StopAt(s, i) then i else FirstStop(s, i + 1)
  }

  /** FirstStop finds the lookahead, and it fails at every index before. */
  lemma {:induction false} FirstStopSpec(s: string, i: nat)
    requires i <= |s|
    ensures StopAt(s, FirstStop(s, i))
    ensures forall k :: i <= k < FirstStop(s, i) ==> !StopAt(s, k)
    decreases |s| - i
  {
    if !StopAt(s, i) {
      FirstStopSpec(s, i + 1);
    }
  }

  /** The first index at or after p where a label begins (re.findall's search for the next match). */
  function NextLabel(s: string, p: nat): (r: Option<nat>)
    requires p <= |s|
    ensures r.Some? ==> p <= r.value < |s| && LabelAt(s, r.value).Some?
    decreases |s| - p
  {
    if p == |s| then None
    else if LabelAt(s, p).Some? then Some(p)
    else NextLabel(s, p + 1)
  }

  /** NextLabel skips no label: none lies between p and what it finds, or after p when it finds none. */
  lemma {:induction false} NextLabelSpec(s: string, p: nat)
    requires p <= |s|
    ensures NextLabel(s, p).Some? ==> NoLabelIn(s, p, NextLabel(s, p).value)
    ensures NextLabel(s, p).None? ==> NoLabelIn(s, p, |s|)
    decreases |s| - p
  {
    if p < |s| && LabelAt(s, p).None? {
      NextLabelSpec(s, p + 1);
    }
  }

  /** One match: the speaker, where its label begins, and the utterance s[start..end]. */
  datatype Segment = Segment(speaker: string, pos: nat, start: nat, end: nat)

  /** g is a match of the pattern at g.pos, with greedy \s* and the lazy utterance. */
  ghost predicate IsMatch(s: string, g: Segment) {
    && g.speaker in Speakers
    && OccursAt(s, g.speaker + ":", g.pos)
    && g.pos + |g.speaker| + 1 <= g.start <= g.end <= |s|
    && (forall k :: g.pos + |g.speaker| + 1 <= k < g.start ==> IsSpace(s[k]))
    && (g.start == |s| || !IsSpace(s[g.start]))
    && StopAt(s, g.end)
    && (forall k :: g.start <= k < g.end ==> !StopAt(s, k))
  }

  /** The match of the pattern at a label's index q. */
  function MatchFrom(s: string, q: nat): (g: Segment)
    requires q <= |s| && LabelAt(s, q).Some?
    ensures g.pos == q < g.end <= |s| && g.start <= g.end && g.speaker in Speakers
  {
    var name := LabelAt(s, q).value;
    var b := SkipSpace(s, q + |name| + 1);
    Segment(name, q, b, FirstStop(s, b))
  }

  /** The segment built at a label is a match of the pattern there. */
  lemma MatchFromIsMatch(s: string, q: nat)
    requires q <= |s| && LabelAt(s, q).Some?
    ensures IsMatch(s, MatchFrom(s, q))
  {
    var g := MatchFrom(s, q);
    SkipSpaceSpec(s, g.pos + |g.speaker| + 1);
    FirstStopSpec(s, g.start);
  }

  /** re.findall from index p: the matches left to right, each search resuming where the last match ended. */
  function Segments(s: string, p: nat): seq<Segment>
    requires p <= |s|
    decreases |s| - p
  {
    match NextLabel(s, p)
    case None => []
    case Some(q) =>
      var g := MatchFrom(s, q);
      [g] + Segments(s, g.end)
  }

  /** Every segment is labelled by one of the three speakers. */
  lemma {:induction false} SegmentSpeakers(s: string, p: nat)
    requires p <= |s|
    ensures forall n :: 0 <= n < |Segments(s, p)| ==> Segments(s, p)[n].speaker in Speakers
    decreases |s| - p
  {
    match NextLabel(s, p)
    case None =>
    case Some(q) =>
      var g := MatchFrom(s, q);
      var rest := Segments(s, g.end);
      assert Segments(s, p) == [g] + rest;
      SegmentSpeakers(s, g.end);
      assert forall n :: 1 <= n < |rest| + 1 ==> ([g] + rest)[n] == rest[n - 1];
  }

  /** Every segment is a match of the pattern: label, greedy whitespace, utterance up to the first place the lookahead holds. */
  lemma {:induction false} SegmentsAreMatches(s: string, p: nat)
    requires p <= |s|
    ensures forall n :: 0 <= n < |Segments(s, p)| ==> IsMatch(s, Segments(s, p)[n])
    decreases |s| - p
  {
    match NextLabel(s, p)
    case None =>
    case Some(q) =>
      var g := MatchFrom(s, q);
      var segs := Segments(s, p);
      var rest := Segments(s, g.end);
      assert segs == [g] + rest;
      MatchFromIsMatch(s, q);
      SegmentsAreMatches(s, g.end);
      forall n | 0 <= n < |segs| ensures IsMatch(s, segs[n]) {
        if n > 0 {
          assert segs[n] == rest[n - 1];
        }
      }
  }

  /** No label lies before the first match, or anywhere after p when there is none. */
  lemma SegmentsStart(s: string, p: nat)
    requires p <= |s|
    ensures var segs := Segments(s, p);
      && (segs == [] ==> NoLabelIn(s, p, |s|))
      && (segs != [] ==> p <= segs[0].pos && NoLabelIn(s, p, segs[0].pos))
  {
    NextLabelSpec(s, p);
  }

  /** No label lies after the end of the last match. */
  lemma {:induction false} SegmentsEnd(s: string, p: nat)
    requires p <= |s|
    ensures var segs := Segments(s, p); segs != [] ==> NoLabelIn(s, segs[|segs| - 1].end, |s|)
    decreases |s| - p
  {
    match NextLabel(s, p)
    case None =>
    case Some(q) =>
      var g := MatchFrom(s, q);
      var rest := Segments(s, g.end);
      assert Segments(s, p) == [g] + rest;
      SegmentsStart(s, g.end);
      SegmentsEnd(s, g.end);
  }

  /** Each match ends at or before the next one's label, and no label lies between them. */
  lemma {:induction false} SegmentsChain(s: string, p: nat)
    requires p <= |s|
    ensures var segs := Segments(s, p);
      forall n :: 0 <= n < |segs| - 1 ==>
        segs[n].end <= segs[n + 1].pos && NoLabelIn(s, segs[n].end, segs[n + 1].pos)
    decreases |s| - p
  {
    match NextLabel(s, p)
    case None =>
    case Some(q) =>
      var g := MatchFrom(s, q);
      var segs := Segments(s, p);
      var rest := Segments(s, g.end);
      assert segs == [g] + rest;
      SegmentsStart(s, g.end);
      SegmentsChain(s, g.end);
      forall n | 0 <= n < |segs| - 1
        ensures segs[n].end <= segs[n + 1].pos && NoLabelIn(s, segs[n].end, segs[n + 1].pos)
      {
        if n > 0 {
          assert segs[n] == rest[n - 1] && segs[n + 1] == rest[n];
        }
      }
  }

  /**
   * The matches are in order and do not overlap, and no label is skipped: none before the
   * first match, none between one match's end and the next match's label, none after the last.
   */
  lemma SegmentsAreLeftmost(s: string, p: nat)
    requires p <= |s|
    ensures var segs := Segments(s, p);
      && (segs == [] ==> NoLabelIn(s, p, |s|))
      && (segs != [] ==> p <= segs[0].pos && NoLabelIn(s, p, segs[0].pos))
      && (segs != [] ==> NoLabelIn(s, segs[|segs| - 1].end, |s|))
      && (forall n :: 0 <= n < |segs| - 1 ==>
            segs[n].end <= segs[n + 1].pos && NoLabelIn(s, segs[n].end, segs[n + 1].pos))
  {
    SegmentsStart(s, p);
    SegmentsEnd(s, p);
    SegmentsChain(s, p);
  }

  /** The utterance of a segment (empty for bounds that no match has). */
  function Body(s: string, g: Segment): string {
    if g.start <= g.end <= |s| then s[g.start..g.end] else []
  }

  /** strip(), then replace("**", ""), then strip('"'), then strip("'"). */
  function Clean(raw: string): (m: string)
    ensures NoDoubleStar(m)
    ensures m != [] ==> m[0] != '\'' && m[|m| - 1] != '\''
  {
    var a := RemoveDoubleStars(Strip(raw));
    var b := StripBy(a, IsDoubleQuote);
    StripByKeepsNoDoubleStar(a, IsDoubleQuote);
    StripByKeepsNoDoubleStar(b, IsSingleQuote);
    StripBy(b, IsSingleQuote)
  }

  /** The (speaker, cleaned utterance) pair of one match. */
  function Utterance(s: string, g: Segment): (string, string) {
    (g.speaker, Clean(Body(s, g)))
  }

  /** The (speaker, cleaned utterance) pairs of the matches, in the text's order. */
  function Utterances(text: string): (us: seq<(string, string)>)
    ensures |us| == |Segments(text, 0)|
  {
    var segs := Segments(text, 0);
    seq(|segs|, n requires 0 <= n < |segs| => Utterance(text, segs[n]))
  }

  /** What parse_operative_dialogue returns for text. */
  function DialogueOf(text: string): Dict<string, string> {
    PutAll([], Utterances(text))
  }

  /** Every pair's key is a speaker's name. */
  lemma UtteranceSpeakers(text: string)
    ensures forall n :: 0 <= n < |Utterances(text)| ==> Utterances(text)[n].0 in Speakers
  {
    SegmentSpeakers(text, 0);
    forall n | 0 <= n < |Utterances(text)| ensures Utterances(text)[n].0 in Speakers {
      assert Utterances(text)[n].0 == Segments(text, 0)[n].speaker;
    }
  }

  /**
   * The dict parse_operative_dialogue returns: its keys are speakers' names, each speaker maps
   * to the cleaned utterance of its last segment, and a speaker without a segment is absent.
   */
  lemma DialogueOfMeaning(text: string)
    ensures DistinctKeys(DialogueOf(text))
    ensures forall k :: k in Keys(DialogueOf(text)) ==> k in Speakers
    ensures forall name :: Get(DialogueOf(text), name) == LastValue(Utterances(text), name)
  {
    var us := Utterances(text);
    UtteranceSpeakers(text);
    PutAllKeys([], us, set n | n in Speakers);
    forall name ensures Get(DialogueOf(text), name) == LastValue(us, name) {
      PutAllGet([], us, name);
    }
  }

  /** Every utterance of the matches is clean, so no value of the dict holds "**" or has a quote at an end. */
  lemma {:induction false} LastValueIsClean(us: seq<(string, string)>, name: string)
    requires forall n :: 0 <= n < |us| ==> NoDoubleStar(us[n].1) && (us[n].1 != [] ==> us[n].1[0] != '\'' && us[n].1[|us[n].1| - 1] != '\'')
    ensures LastValue(us, name).Some? ==> NoDoubleStar(LastValue(us, name).value)
    ensures var m := LastValue(us, name); m.Some? && m.value != [] ==> m.value[0] != '\'' && m.value[|m.value| - 1] != '\''
    decreases |us|
  {
    if us != [] && us[|us| - 1].0 != name {
      LastValueIsClean(us[..|us| - 1], name);
    }
  }

  /** No utterance in the dict holds "**", and none begins or ends with a single quote. */
  lemma DialogueValuesClean(text: string, name: string)
    requires Get(DialogueOf(text), name).Some?
    ensures NoDoubleStar(Get(DialogueOf(text), name).value)
    ensures var m := Get(DialogueOf(text), name).value; m != [] ==> m[0] != '\'' && m[|m| - 1] != '\''
  {
    var us := Utterances(text);
    forall n | 0 <= n < |us|
      ensures NoDoubleStar(us[n].1) && (us[n].1 != [] ==> us[n].1[0] != '\'' && us[n].1[|us[n].1| - 1] != '\'')
    {
      assert us[n].1 == Clean(Body(text, Segments(text, 0)[n]));
    }
    DialogueOfMeaning(text);
    LastValueIsClean(us, name);
  }

  /** One turn of parse_operative_dialogue's loop: the dict after n + 1 matches is the dict after n, with match n written in. */
  lemma DialogueStep(text: string, n: nat)
    requires n < |Segments(text, 0)|
    ensures var g := Segments(text, 0)[n];
      PutAll([], Utterances(text)[..n + 1]) == Put(PutAll([], Utterances(text)[..n]), g.speaker, Clean(Body(text, g)))
  {
    PutAllPrefix([], Utterances(text), n);
  }

  /** parse_operative_dialogue. */
  method ParseOperativeDialogue(text: string) returns (d: Dict<string, string>)
    ensures d == DialogueOf(text)
    ensures DistinctKeys(d) && forall k :: k in Keys(d) ==> k in Speakers
  {
    var segs := Segments(text, 0);
    d := [];
    var i := 0;
    while i < |segs|
      invariant 0 <= i <= |segs|
      invariant d == PutAll([], Utterances(text)[..i])
    {
      var g := segs[i];
      var m := Clean(Body(text, g));
      DialogueStep(text, i);
      d := Put(d, g.speaker, m);
      i := i + 1;
    }
    assert Utterances(text)[..i] == Utterances(text);
    DialogueOfMeaning(text);
  }
}
