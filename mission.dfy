// The mission data a turn works against: the POI catalogue and its image links, the one-time
// discovery of POIs from the squad's locations, the objective flags and the debrief rating.

module Mission {
  import opened Options
  import opened Text
  import opened OrderedDict

  // ---------------------------------------------------------------------------------------
  // get_image_url
  // ---------------------------------------------------------------------------------------

  const Bucket: string := "uge-repository-cu32"

  /** The public path every cinematic lives under. */
  const ImageBase: string := "https://storage.googleapis.com/" + Bucket + "/cinematics/"

  /** The link of a POI image; a missing file name gives the empty link. */
  function ImageUrl(filename: string): string {
    if filename == "" then "" else ImageBase + filename
  }

  /** The file name a link points at: the inverse of ImageUrl. */
  function ImageFile(url: string): string {
    if StartsWith(url, ImageBase) then url[|ImageBase|..] else ""
  }

  /** A link is empty exactly when the file name is, and otherwise is the bucket path followed by the name. */
  lemma ImageUrlShape(filename: string)
    ensures ImageUrl(filename) == "" <==> filename == ""
    ensures filename != "" ==> StartsWith(ImageUrl(filename), ImageBase) && ImageUrl(filename)[|ImageBase|..] == filename
  {
    if filename != "" {
      var u := ImageUrl(filename);
      assert u[..|ImageBase|] == ImageBase;
    }
  }

  /** Reading the file name back from its link gives the name. */
  lemma ImageRoundTrip(filename: string)
    ensures ImageFile(ImageUrl(filename)) == filename
  {
    ImageUrlShape(filename);
  }

  /** Every non-empty link into the bucket path is the link of the name it ends with. */
  lemma ImageRoundTripBack(url: string)
    requires StartsWith(url, ImageBase) && |url| > |ImageBase|
    ensures ImageUrl(ImageFile(url)) == url
  {
    assert url == url[..|ImageBase|] + url[|ImageBase|..];
  }

  /** Different images have different links. */
  lemma ImageUrlInjective(a: string, b: string)
    requires ImageUrl(a) == ImageUrl(b)
    ensures a == b
  {
    ImageRoundTrip(a);
    ImageRoundTrip(b);
  }

  // ---------------------------------------------------------------------------------------
  // MISSION_DATA and the next(...) lookup
  // ---------------------------------------------------------------------------------------

  /** One point of interest, as load_mission stores it; a missing id is the empty id. */
  datatype Poi = Poi(id: string, name: string, intel: string, image: string)

  /** The ids of the catalogue, in its order. */
  function Ids(catalog: seq<Poi>): (ids: seq<string>)
    ensures |ids| == |catalog| && forall j :: 0 <= j < |catalog| ==> ids[j] == catalog[j].id
  {
    seq(|catalog|, j requires 0 <= j < |catalog| => catalog[j].id)
  }

  /** The first POI, in catalogue order, whose name is exactly the given name. */
  function FindPoi(catalog: seq<Poi>, name: string): (r: Option<nat>)
    ensures r.Some? ==> r.value < |catalog| && catalog[r.value].name == name
  {
    if catalog == [] then None
    else if catalog[0].name == name then Some(0)
    else match FindPoi(catalog[1..], name)
      case None => None
      case Some(j) => Some(j + 1)
  }

  /** The lookup finds the first match, and finds nothing only when no POI has that name. */
  lemma {:induction false} FindPoiFirst(catalog: seq<Poi>, name: string)
    ensures FindPoi(catalog, name).Some? ==> forall j :: 0 <= j < FindPoi(catalog, name).value ==> catalog[j].name != name
    ensures FindPoi(catalog, name).None? ==> forall j :: 0 <= j < |catalog| ==> catalog[j].name != name
  {
    if catalog != [] && catalog[0].name != name {
      FindPoiFirst(catalog[1..], name);
      assert forall j :: 1 <= j < |catalog| ==> catalog[j] == catalog[1..][j - 1];
    }
  }

  // ---------------------------------------------------------------------------------------
  // Chat messages
  // ---------------------------------------------------------------------------------------

  /** An entry of the chat history: a command, a recon report, or a split reply with its raw text. */
  datatype Msg =
    | UserMsg(content: string)
    | ReconMsg(content: string)
    | ReplyMsg(split: Dict<string, string>, raw: string)

  /** The recon report for a POI reached under the given location name. */
  function ReconContent(name: string, p: Poi): string {
    "\U{1F5BC}\U{FE0F} **RECON UPLINK: " + Upper(name) + "**\n\n" + p.intel + "\n\n![" + name + "](" + ImageUrl(p.image) + ")"
  }

  // ---------------------------------------------------------------------------------------
  // Discovery
  // ---------------------------------------------------------------------------------------

  /** The POI a location name discovers: its first match, when that has an id not yet discovered. */
  function NewPoi(catalog: seq<Poi>, name: string, discovered: seq<string>): (r: Option<Poi>)
    ensures r.Some? ==> r.value.id != "" && r.value.id !in discovered && r.value.id in Ids(catalog)
  {
    match FindPoi(catalog, name)
    case None => None
    case Some(j) =>
      var p := catalog[j];
      if p.id != "" && p.id !in discovered then Some(p) else None
  }

  /**
   * The discovery loop over the location entries in order: the discovered ids afterwards and the
   * recon reports it appends.
   */
  function Discovery(catalog: seq<Poi>, entries: Dict<string, string>, discovered: seq<string>): (seq<string>, seq<Msg>)
    decreases |entries|
  {
    if entries == [] then (discovered, [])
    else
      var r := Discovery(catalog, entries[..|entries| - 1], discovered);
      var name := entries[|entries| - 1].1;
      match NewPoi(catalog, name, r.0)
      case None => r
      case Some(p) => (r.0 + [p.id], r.1 + [ReconMsg(ReconContent(name, p))])
  }

  /** No id occurs twice. */
  predicate NoDup(s: seq<string>) {
    forall i, j :: 0 <= i < j < |s| ==> s[i] != s[j]
  }

  /** The ids after one more location name: a discovered POI's id is appended. */
  function AfterName(catalog: seq<Poi>, name: string, discovered: seq<string>): seq<string> {
    match NewPoi(catalog, name, discovered)
    case None => discovered
    case Some(p) => discovered + [p.id]
  }

  /** The discovered ids are those name by name. */
  lemma DiscoveryIds(catalog: seq<Poi>, entries: Dict<string, string>, discovered: seq<string>)
    requires entries != []
    ensures var front := entries[..|entries| - 1];
      Discovery(catalog, entries, discovered).0
        == AfterName(catalog, entries[|entries| - 1].1, Discovery(catalog, front, discovered).0)
  {
  }

  /** Discovery only appends ids, and appends exactly one recon report per new id. */
  lemma {:induction false} DiscoveryGrows(catalog: seq<Poi>, entries: Dict<string, string>, discovered: seq<string>)
    ensures var r := Discovery(catalog, entries, discovered);
      |discovered| <= |r.0| && r.0 == discovered + r.0[|discovered|..] && |r.1| == |r.0| - |discovered|
    decreases |entries|
  {
    if entries != [] {
      var front := entries[..|entries| - 1];
      DiscoveryGrows(catalog, front, discovered);
      var r := Discovery(catalog, front, discovered);
      var name := entries[|entries| - 1].1;
      match NewPoi(catalog, name, r.0)
      case None =>
      case Some(p) =>
        var d := r.0 + [p.id];
        assert d[|discovered|..] == r.0[|discovered|..] + [p.id];
    }
  }

  /** Every id discovery appends is a non-empty catalogue id occurring nowhere before it. */
  lemma {:induction false} DiscoveryFresh(catalog: seq<Poi>, entries: Dict<string, string>, discovered: seq<string>)
    ensures var d := Discovery(catalog, entries, discovered).0;
      forall k :: |discovered| <= k < |d| ==> d[k] != "" && d[k] !in d[..k] && d[k] in Ids(catalog)
    decreases |entries|
  {
    if entries != [] {
      var front := entries[..|entries| - 1];
      DiscoveryFresh(catalog, front, discovered);
      DiscoveryGrows(catalog, front, discovered);
      DiscoveryIds(catalog, entries, discovered);
      var r := Discovery(catalog, front, discovered).0;
      var name := entries[|entries| - 1].1;
      match NewPoi(catalog, name, r)
      case None =>
      case Some(p) =>
        var d := r + [p.id];
        assert d[..|r|] == r;
        forall k | |discovered| <= k < |d| ensures d[k] != "" && d[k] !in d[..k] && d[k] in Ids(catalog) {
          if k < |r| {
            assert d[..k] == r[..k];
          }
        }
    }
  }

  /** m is the recon report of a catalogue POI with this id, reached under the name of one of the entries. */
  ghost predicate ReportFor(catalog: seq<Poi>, entries: Dict<string, string>, id: string, m: Msg) {
    exists j :: 0 <= j < |catalog| && catalog[j].id == id && m == ReconMsg(ReconContent(catalog[j].name, catalog[j]))
      && exists n :: 0 <= n < |entries| && entries[n].1 == catalog[j].name
  }

  /** A report for one of the front entries is a report for the whole list. */
  lemma ReportForWiden(catalog: seq<Poi>, entries: Dict<string, string>, id: string, m: Msg)
    requires entries != [] && ReportFor(catalog, entries[..|entries| - 1], id, m)
    ensures ReportFor(catalog, entries, id, m)
  {
    var front := entries[..|entries| - 1];
    var j :| 0 <= j < |catalog| && catalog[j].id == id && m == ReconMsg(ReconContent(catalog[j].name, catalog[j]))
      && exists n :: 0 <= n < |front| && front[n].1 == catalog[j].name;
    var n :| 0 <= n < |front| && front[n].1 == catalog[j].name;
    assert entries[n] == front[n];
  }

  /** The report a discovered POI gets is a report for its id, under the last entry's name. */
  lemma ReportForLast(catalog: seq<Poi>, entries: Dict<string, string>, p: Poi, d: seq<string>)
    requires entries != [] && NewPoi(catalog, entries[|entries| - 1].1, d) == Some(p)
    ensures ReportFor(catalog, entries, p.id, ReconMsg(ReconContent(entries[|entries| - 1].1, p)))
  {
    var name := entries[|entries| - 1].1;
    var j := FindPoi(catalog, name).value;
    assert catalog[j] == p && p.name == name;
    assert entries[|entries| - 1].1 == catalog[j].name;
  }

  /**
   * Discovery pairs reports with new ids one by one: the k-th report is the recon report of a
   * POI that has the k-th new id and whose name is one of the locations.
   */
  lemma {:induction false} DiscoveryReportsPaired(catalog: seq<Poi>, entries: Dict<string, string>, discovered: seq<string>)
    ensures var r := Discovery(catalog, entries, discovered);
      |r.0| == |discovered| + |r.1|
      && forall k :: 0 <= k < |r.1| ==> ReportFor(catalog, entries, r.0[|discovered| + k], r.1[k])
    decreases |entries|
  {
    if entries != [] {
      var front := entries[..|entries| - 1];
      var name := entries[|entries| - 1].1;
      DiscoveryReportsPaired(catalog, front, discovered);
      var r := Discovery(catalog, front, discovered);
      var e := Discovery(catalog, entries, discovered);
      forall k | 0 <= k < |r.1| ensures ReportFor(catalog, entries, r.0[|discovered| + k], r.1[k]) {
        ReportForWiden(catalog, entries, r.0[|discovered| + k], r.1[k]);
      }
      match NewPoi(catalog, name, r.0)
      case None =>
        assert e == r;
      case Some(p) =>
        assert e == (r.0 + [p.id], r.1 + [ReconMsg(ReconContent(name, p))]);
        ReportForLast(catalog, entries, p, r.0);
        forall k | 0 <= k < |e.1| ensures ReportFor(catalog, entries, e.0[|discovered| + k], e.1[k]) {
          if k < |r.1| {
            assert e.0[|discovered| + k] == r.0[|discovered| + k] && e.1[k] == r.1[k];
          }
        }
    }
  }

  /** A list without repeats keeps none after discovery. */
  lemma DiscoveryNoDup(catalog: seq<Poi>, entries: Dict<string, string>, discovered: seq<string>)
    requires NoDup(discovered)
    ensures NoDup(Discovery(catalog, entries, discovered).0)
  {
    DiscoveryGrows(catalog, entries, discovered);
    DiscoveryFresh(catalog, entries, discovered);
    var d := Discovery(catalog, entries, discovered).0;
    forall i, j | 0 <= i < j < |d| ensures d[i] != d[j] {
      if j >= |discovered| {
        assert d[i] in d[..j];
      } else {
        assert d[i] == discovered[i] && d[j] == discovered[j];
      }
    }
  }

  /** The id a location name would discover, if any: the id of its first match, when non-empty. */
  predicate Covered(catalog: seq<Poi>, name: string, discovered: seq<string>) {
    match FindPoi(catalog, name)
    case None => true
    case Some(j) => catalog[j].id == "" || catalog[j].id in discovered
  }

  /** Discovery changes nothing when every location is already covered. */
  lemma {:induction false} DiscoveryIdle(catalog: seq<Poi>, entries: Dict<string, string>, discovered: seq<string>)
    requires forall n :: 0 <= n < |entries| ==> Covered(catalog, entries[n].1, discovered)
    ensures Discovery(catalog, entries, discovered) == (discovered, [])
    decreases |entries|
  {
    if entries != [] {
      var front := entries[..|entries| - 1];
      assert forall n :: 0 <= n < |front| ==> front[n] == entries[n];
      DiscoveryIdle(catalog, front, discovered);
      assert Covered(catalog, entries[|entries| - 1].1, discovered);
    }
  }

  /** Covered stays true as ids are appended. */
  lemma CoveredGrows(catalog: seq<Poi>, name: string, d: seq<string>, e: seq<string>)
    requires Covered(catalog, name, d)
    ensures Covered(catalog, name, d + e)
  {
  }

  /** A name is covered once it has been looked at. */
  lemma CoveredAfterName(catalog: seq<Poi>, name: string, d: seq<string>)
    ensures Covered(catalog, name, AfterName(catalog, name, d))
  {
  }

  /** Looking at one more name covers it and keeps every name covered before covered. */
  lemma CoveredAfterStep(catalog: seq<Poi>, front: Dict<string, string>, name: string, d: seq<string>)
    requires forall n :: 0 <= n < |front| ==> Covered(catalog, front[n].1, d)
    ensures var a := AfterName(catalog, name, d);
      Covered(catalog, name, a) && forall n :: 0 <= n < |front| ==> Covered(catalog, front[n].1, a)
  {
    var a := AfterName(catalog, name, d);
    assert a == d + a[|d|..];
    CoveredAfterName(catalog, name, d);
    forall n | 0 <= n < |front| ensures Covered(catalog, front[n].1, a) {
      CoveredGrows(catalog, front[n].1, d, a[|d|..]);
    }
  }

  /** After discovery every location is covered. */
  lemma {:induction false} DiscoveryCovers(catalog: seq<Poi>, entries: Dict<string, string>, discovered: seq<string>)
    ensures var d := Discovery(catalog, entries, discovered).0;
      forall n :: 0 <= n < |entries| ==> Covered(catalog, entries[n].1, d)
    decreases |entries|
  {
    if entries != [] {
      var front := entries[..|entries| - 1];
      DiscoveryCovers(catalog, front, discovered);
      DiscoveryIds(catalog, entries, discovered);
      CoveredAfterStep(catalog, front, entries[|entries| - 1].1, Discovery(catalog, front, discovered).0);
      assert forall n :: 0 <= n < |front| ==> entries[n] == front[n];
    }
  }

  /** Running discovery again on the same locations finds nothing: each POI is reported once. */
  lemma DiscoveryIdempotent(catalog: seq<Poi>, entries: Dict<string, string>, discovered: seq<string>)
    ensures var d := Discovery(catalog, entries, discovered).0;
      Discovery(catalog, entries, d) == (d, [])
  {
    DiscoveryCovers(catalog, entries, discovered);
    DiscoveryIdle(catalog, entries, Discovery(catalog, entries, discovered).0);
  }

  /** An unmatched last entry adds nothing. */
  lemma DiscoveryUnmatchedLast(catalog: seq<Poi>, front: Dict<string, string>, e: (string, string), back: Dict<string, string>, discovered: seq<string>)
    requires forall j :: 0 <= j < |catalog| ==> catalog[j].name != e.1
    requires back == []
    ensures Discovery(catalog, front + [e] + back, discovered) == Discovery(catalog, front + back, discovered)
  {
    assert front + [e] + back == front + [e] && front + back == front;
    assert (front + [e])[..|front|] == front;
  }

  /** Two entry lists that discover the same keep doing so after one more entry. */
  lemma DiscoverySameAfter(catalog: seq<Poi>, p: Dict<string, string>, q: Dict<string, string>, x: (string, string), discovered: seq<string>)
    requires Discovery(catalog, p, discovered) == Discovery(catalog, q, discovered)
    ensures Discovery(catalog, p + [x], discovered) == Discovery(catalog, q + [x], discovered)
  {
    assert (p + [x])[..|p|] == p && (q + [x])[..|q|] == q;
  }

  /** The inductive step: an entry that changes nothing keeps changing nothing when another follows. */
  lemma DiscoveryUnmatchedStep(catalog: seq<Poi>, front: Dict<string, string>, e: (string, string), back: Dict<string, string>, discovered: seq<string>)
    requires back != []
    requires var rest := back[..|back| - 1];
      Discovery(catalog, front + [e] + rest, discovered) == Discovery(catalog, front + rest, discovered)
    ensures Discovery(catalog, front + [e] + back, discovered) == Discovery(catalog, front + back, discovered)
  {
    var rest := back[..|back| - 1];
    var x := back[|back| - 1];
    DiscoverySameAfter(catalog, front + [e] + rest, front + rest, x, discovered);
    SnocRegroup(front, e, back);
  }

  /** Both lists, with the last entry of back split off. */
  lemma SnocRegroup<T>(front: seq<T>, e: T, back: seq<T>)
    requires back != []
    ensures front + [e] + back == (front + [e] + back[..|back| - 1]) + [back[|back| - 1]]
    ensures front + back == (front + back[..|back| - 1]) + [back[|back| - 1]]
  {
    assert back == back[..|back| - 1] + [back[|back| - 1]];
  }

  /** A location whose name matches no POI (the match is exact and case-sensitive) adds nothing, wherever it lies. */
  lemma {:induction false} DiscoveryUnmatched(catalog: seq<Poi>, front: Dict<string, string>, e: (string, string), back: Dict<string, string>, discovered: seq<string>)
    requires forall j :: 0 <= j < |catalog| ==> catalog[j].name != e.1
    ensures Discovery(catalog, front + [e] + back, discovered) == Discovery(catalog, front + back, discovered)
    decreases |back|
  {
    if back == [] {
      DiscoveryUnmatchedLast(catalog, front, e, back, discovered);
    } else {
      DiscoveryUnmatched(catalog, front, e, back[..|back| - 1], discovered);
      DiscoveryUnmatchedStep(catalog, front, e, back, discovered);
    }
  }

  /** One more location entry: the step the discovery loop takes. */
  lemma DiscoveryStep(catalog: seq<Poi>, entries: Dict<string, string>, discovered: seq<string>, n: nat)
    requires n < |entries|
    ensures var r := Discovery(catalog, entries[..n], discovered);
      var name := entries[n].1;
      Discovery(catalog, entries[..n + 1], discovered)
        == match NewPoi(catalog, name, r.0)
           case None => r
           case Some(p) => (r.0 + [p.id], r.1 + [ReconMsg(ReconContent(name, p))])
  {
    assert entries[..n + 1][..n] == entries[..n];
  }

  // ---------------------------------------------------------------------------------------
  // Objectives
  // ---------------------------------------------------------------------------------------

  /** The bonus for each objective reached. */
  const Bonus: int := 150

  /** The objective loop over the reported ids in order: the flags and the efficiency score afterwards. */
  function ApplyObjectives(objectives: map<string, bool>, efficiency: int, ids: seq<string>): (map<string, bool>, int)
    decreases |ids|
  {
    if ids == [] then (objectives, efficiency)
    else
      var r := ApplyObjectives(objectives, efficiency, ids[..|ids| - 1]);
      var id := ids[|ids| - 1];
      if id in r.0 && !r.0[id] then (r.0[id := true], r.1 + Bonus) else r
  }

  /** The known objectives the ids reach for the first time. */
  function Flipped(objectives: map<string, bool>, ids: seq<string>): set<string> {
    set k | k in objectives && !objectives[k] && k in ids
  }

  /**
   * The key set never changes, unknown ids are ignored, a flag ends true exactly when it was true
   * or its id was reported, and the score grows by the bonus once per objective flipped.
   */
  lemma {:induction false} ObjectivesEffect(objectives: map<string, bool>, efficiency: int, ids: seq<string>)
    ensures var r := ApplyObjectives(objectives, efficiency, ids);
      r.0.Keys == objectives.Keys && forall k :: k in objectives ==> r.0[k] == (objectives[k] || k in ids)
    ensures ApplyObjectives(objectives, efficiency, ids).1 == efficiency + Bonus * |Flipped(objectives, ids)|
    decreases |ids|
  {
    if ids != [] {
      var front := ids[..|ids| - 1];
      var id := ids[|ids| - 1];
      ObjectivesEffect(objectives, efficiency, front);
      assert ids == front + [id];
      var f := Flipped(objectives, front);
      var r := ApplyObjectives(objectives, efficiency, front);
      if id in r.0 && !r.0[id] {
        assert id !in f;
        assert Flipped(objectives, ids) == f + {id};
      } else {
        assert Flipped(objectives, ids) == f;
      }
    }
  }

  /** Reporting ids whose objectives are all already reached (or unknown) changes nothing. */
  lemma {:induction false} ObjectivesIdle(objectives: map<string, bool>, efficiency: int, ids: seq<string>)
    requires forall n :: 0 <= n < |ids| && ids[n] in objectives ==> objectives[ids[n]]
    ensures ApplyObjectives(objectives, efficiency, ids) == (objectives, efficiency)
    decreases |ids|
  {
    if ids != [] {
      var front := ids[..|ids| - 1];
      assert forall n :: 0 <= n < |front| ==> front[n] == ids[n];
      ObjectivesIdle(objectives, efficiency, front);
    }
  }

  /** Repeating a turn's tags, in the same turn or a later one, is a no-op. */
  lemma ObjectivesIdempotent(objectives: map<string, bool>, efficiency: int, ids: seq<string>)
    ensures var r := ApplyObjectives(objectives, efficiency, ids);
      ApplyObjectives(r.0, r.1, ids) == r
  {
    ObjectivesEffect(objectives, efficiency, ids);
    var r := ApplyObjectives(objectives, efficiency, ids);
    ObjectivesIdle(r.0, r.1, ids);
  }

  /** One more id: the step the objective loop takes. */
  lemma ObjectivesStep(objectives: map<string, bool>, efficiency: int, ids: seq<string>, n: nat)
    requires n < |ids|
    ensures var r := ApplyObjectives(objectives, efficiency, ids[..n]);
      ApplyObjectives(objectives, efficiency, ids[..n + 1])
        == if ids[n] in r.0 && !r.0[ids[n]] then (r.0[ids[n] := true], r.1 + Bonus) else r
  {
    assert ids[..n + 1][..n] == ids[..n];
  }

  // ---------------------------------------------------------------------------------------
  // The debrief rating
  // ---------------------------------------------------------------------------------------

  /** max(0, viability * 10 - time_elapsed * 5). */
  function Rating(viability: int, elapsed: int): (r: int)
    ensures r >= 0 && r >= viability * 10 - elapsed * 5
    ensures r == 0 || r == viability * 10 - elapsed * 5
  {
    var score := viability * 10 - elapsed * 5;
    if score > 0 then score else 0
  }

  /** The rating falls as the mission takes longer and rises with viability. */
  lemma RatingMonotone(v1: int, v2: int, e1: int, e2: int)
    requires v1 <= v2 && e2 <= e1
    ensures Rating(v1, e1) <= Rating(v2, e2)
  {
  }

  /** From full viability and no time spent, the rating is at most 1000, and each minute costs 5 points until it reaches 0. */
  lemma RatingBounds(viability: int, elapsed: int)
    requires 0 <= viability <= 100 && 0 <= elapsed
    ensures Rating(viability, elapsed) <= 1000
    ensures 2 * viability <= elapsed ==> Rating(viability, elapsed) == 0
    ensures elapsed < 2 * viability ==> Rating(viability, elapsed) == viability * 10 - elapsed * 5
  {
  }
}
