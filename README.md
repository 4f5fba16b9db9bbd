# Squad mission turn: a Dafny model

The game is a Streamlit app. The player commands a three-person squad (SAM, DAVE and MIKE),
and a language model answers as the squad. Each answer ends with machine-readable suffix tags:
- `[LOC_DATA: SAM=…, DAVE=…, MIKE=…]` (where each unit is);
- `[OBJ_DATA: obj_x=TRUE]` (an objective reached);
- a fixed win phrase.

After every reply the app reconciles the session state with these tags, in order:
1. It writes the locations.
2. It discovers points of interest (POIs), appending a recon report for each new one.
3. It reaches objectives, each for a 150-point bonus.
4. It checks the win phrase.
5. It removes the tags.
6. It splits the remaining text into per-speaker utterances and appends the reply to the chat history.

Around this step the app:
- handles one submitted command: a backdoor word, or a clock tick and a user message;
- scrubs the session when a different user logs in;
- computes the debrief rating.

The model is the following modules:
- `Options`: the option type.
- `Text`: the string operations the source uses:
  - `strip` over Python's whitespace;
  - `replace("**", "")`;
  - `split`;
  - ASCII `upper`/`lower`;
  - substring search.
- `OrderedDict`: a Python dict as an association list. The insertion order decides the order of discovery.
- `Dialogue`: `parse_operative_dialogue`. The regular expression is written as a scanner:
  - a greedy `\s*`;
  - a lazy utterance up to the lookahead;
  - the `$` that also matches before a final newline;
  - `re.findall` resuming after each match.
- `Tags`: the three regular expressions of the reconciliation, as scanners:
  - `re.search` for the location tag;
  - `re.findall` for objective tags;
  - `re.sub` for tag removal.

  It also holds the `pair.split("=")` loop, its ValueError, and the case-insensitive win test.
- `Mission`:
  - the POI catalogue and `get_image_url`;
  - the discovery loop and the objective loop, as folds;
  - the rating.
- `GameSession`:
  - the session state as a value (`State`), with the reconciliation and the command step as functions on it (`ReconcileOf`, `CommandOf`);
  - a class `Session` whose fields are updated in place by one method per block. Each method is proved equal to those functions.
- `Identity`: the identity handshake on `st.session_state`, as a class over a map whose keys are deleted in a loop.

Two behaviours of the location step are kept as the code has them:
- A malformed location pair is an error. `unit, loc = pair.split("=")` (streamlit_app.py:297) raises a ValueError when a pair holds no `=` or more than one. Every field of the tag may hold `=`: `[^,]+` admits it in SAM and DAVE, `[^\]]+` in MIKE.
  - The model gives this path its own outcome, `LocationParseError`.
  - The pairs before the bad one have already been written (none, when SAM's pair is the bad one).
  - Nothing later in the turn happens.
- The `MIKE` field may also contain `, `. That yields extra pairs, which can overwrite SAM or DAVE, or add new unit keys. The model keeps this too.

## Model

| member | source | states |
|---|---|---|
| Dialogue.DialogueOf | streamlit_app.py:168-184 | the dict parse_operative_dialogue returns: the matches' cleaned utterances written in order under their speakers; its meaning is stated by the two rows below it |
| Dialogue.ParseOperativeDialogue | streamlit_app.py:168-184 | the loop over the matches builds exactly the dict `DialogueOf` describes, whose keys are distinct speakers' names |
| Dialogue.DialogueOfMeaning | streamlit_app.py:173-184 | the dict's keys are among SAM, DAVE, MIKE; each speaker maps to the cleaned utterance of its last segment (a later segment overwrites an earlier one); a speaker without a segment is absent |
| Dialogue.DialogueValuesClean | streamlit_app.py:176-180 | no value holds `**`, and no value begins or ends with a single quote |
| Dialogue.SegmentSpeakers | streamlit_app.py:170-171 | every match is labelled by one of the three speakers |
| Dialogue.SegmentsAreMatches | streamlit_app.py:170-171 | every segment is a match of the pattern: a label, the whole whitespace run after it, and the utterance up to the first index where the lookahead holds and no earlier |
| Dialogue.SegmentsAreLeftmost | streamlit_app.py:170-171 | the matches are in order and do not overlap; no label lies before the first, between one match's end and the next label, or after the last |
| Dialogue.StopAtIsLookahead | streamlit_app.py:170 | the scanner's stop test holds exactly when the lookahead `(?=\s*(?:SAM\|DAVE\|MIKE):\|$)` matches |
| Dialogue.FirstStopSpec | streamlit_app.py:170 | the lazy utterance ends at the first index where the lookahead holds |
| Dialogue.NextLabelSpec | streamlit_app.py:171 | the search for the next match skips no label |
| Dialogue.DialogueStep | streamlit_app.py:174-182 | one loop pass writes the segment's cleaned utterance under its speaker's name |
| Text.SplitJoin | streamlit_app.py:296 | joining the parts of `split` with the separator gives back the text |
| Text.TrimStartDrops | streamlit_app.py:176 | every leading character `strip()` removes is one it strips (whitespace, or the given quote) |
| Text.TrimEndDrops | streamlit_app.py:176 | every trailing character `strip()` removes is one it strips (whitespace, or the given quote) |
| Text.FindFromFirst | streamlit_app.py:335 | substring search finds the first occurrence, and finds nothing only when the text has no occurrence |
| Tags.LocMatchIff | streamlit_app.py:294 | the location pattern matches at an index exactly when a tag with non-empty fields starts there (no comma in SAM or DAVE, no `]` in MIKE), and it captures exactly that tag's fields |
| Tags.LocSearch | streamlit_app.py:294 | `re.search` for the location tag: the first index from which the pattern matches, with the fields it captures; the returned index is never before the start |
| Tags.LocationsAfter | streamlit_app.py:294-298 | the location step on the locations: unchanged without a tag, else the pair loop over the group's pairs; false when the ValueError is raised (stated by ApplyPairsOk, LocationsFromTag and LocationsCrash) |
| Tags.LocSearchFinds | streamlit_app.py:294 | what `re.search` returns is a match of the pattern at the index it returns |
| Tags.LocSearchLeftmost | streamlit_app.py:294 | `re.search` returns the leftmost match: none before it, and none at all when it returns nothing |
| Tags.ApplyPairsOk | streamlit_app.py:296-297 | the ValueError is raised exactly when some pair does not split into two parts |
| Tags.LocationsFromTag | streamlit_app.py:294-298 | a tag whose fields hold no `=` (and whose MIKE field holds no `, `) sets SAM, DAVE and MIKE, in that order, to their stripped fields and changes no other key |
| Tags.LocationsCrash | streamlit_app.py:294-298 | when the SAM and DAVE fields hold no `=`, and the MIKE field holds `=` but no `, `, the ValueError is raised at the third pair, after SAM and DAVE have been written |
| Tags.ObjIds | streamlit_app.py:324 | `re.findall` for objective tags: the captured ids left to right, each search resuming after the last match (stated by ObjIdsSound and ObjIdsComplete) |
| Tags.ObjIdsSound | streamlit_app.py:324 | every id `re.findall` returns is `obj_` plus word characters, and its tag occurs in the reply |
| Tags.ObjIdsComplete | streamlit_app.py:324 | every objective tag in the reply has its id returned |
| Tags.ObjMatchComplete | streamlit_app.py:324 | the tag of an objective id is matched with its whole length |
| Tags.Scrub | streamlit_app.py:343 | the `re.sub` pass: each match dropped, every other character kept, left to right (stated by ScrubUntagged, ScrubPlain and ScrubTag) |
| Tags.StripTags | streamlit_app.py:343 | clean_response: the substitution followed by `strip()` |
| Tags.ScrubUntagged | streamlit_app.py:343 | a stretch of the reply at none of whose indices a tag begins is kept unchanged and in order, even when it holds `[` |
| Tags.TagLenComplete | streamlit_app.py:343 | every `[LOC_DATA:` or `[OBJ_DATA:` span up to the first `]`, on one line, is matched whole |
| Tags.TagLenSound | streamlit_app.py:343 | every match is such a span |
| Tags.ScrubPlain | streamlit_app.py:343 | text without `[` passes through the substitution unchanged and in order |
| Tags.ScrubTag | streamlit_app.py:343 | a tag is removed, and scanning resumes right after it |
| Tags.ObjTagIsStripTag | streamlit_app.py:343 | every objective tag is one the substitution removes |
| Tags.LocTagIsStripTag | streamlit_app.py:343 | every location tag without `]` or newlines in its fields is one the substitution removes |
| Tags.WinTriggeredIff | streamlit_app.py:333-335 | the win test holds exactly when some stretch of the reply lowers to the lowered phrase |
| Tags.WinInAnyCase | streamlit_app.py:335 | any casing of the phrase anywhere in the reply wins |
| Mission.ImageUrl | streamlit_app.py:163-166 | get_image_url (stated by ImageUrlShape and the round trips below) |
| Mission.ImageUrlShape | streamlit_app.py:163-166 | a link is empty exactly when the file name is; otherwise it is the bucket's cinematics path followed by the name |
| Mission.ImageRoundTrip | streamlit_app.py:163-166 | reading the file name back from its link gives the name |
| Mission.ImageRoundTripBack | streamlit_app.py:163-166 | every non-empty link under the path is the link of the name it ends with |
| Mission.ImageUrlInjective | streamlit_app.py:163-166 | different file names have different links |
| Mission.FindPoi | streamlit_app.py:303 | the `next(...)` lookup: what it returns is a POI whose name is exactly the location name |
| Mission.ReconContent | streamlit_app.py:313-316 | the recon report's text: the upper-cased name, the intel, and the image link under the name |
| Mission.Discovery | streamlit_app.py:300-318 | the discovery loop over the location entries in order, as a fold: the discovered ids and the recon reports appended (stated by the Discovery rows below) |
| Mission.FindPoiFirst | streamlit_app.py:303 | the lookup returns the first POI in catalogue order with exactly that name, and none only when no POI has it |
| Mission.DiscoveryGrows | streamlit_app.py:300-318 | discovery only appends ids, and appends exactly one recon report per new id |
| Mission.DiscoveryReportsPaired | streamlit_app.py:305-318 | report by report, the k-th appended report is the recon report of a catalogue POI that has the k-th new id and whose name is one of the locations |
| Mission.DiscoveryFresh | streamlit_app.py:305-307 | every appended id is a non-empty catalogue id that occurs nowhere before it |
| Mission.DiscoveryNoDup | streamlit_app.py:305-307 | a discovered list without repeats keeps none |
| Mission.DiscoveryCovers | streamlit_app.py:301-307 | afterwards, every location's POI is discovered (or has an empty id) |
| Mission.DiscoveryIdempotent | streamlit_app.py:300-318 | running discovery again on the same locations finds nothing |
| Mission.DiscoveryUnmatched | streamlit_app.py:301-305 | a location entry whose name matches no POI exactly adds nothing, wherever it lies among the entries |
| Mission.DiscoveryStep | streamlit_app.py:301-318 | one loop pass appends the new POI's id and its recon report, or nothing |
| Mission.ApplyObjectives | streamlit_app.py:324-330 | the objective loop over the reported ids, as a fold: the flags and the efficiency score (stated by ObjectivesEffect) |
| Mission.ObjectivesEffect | streamlit_app.py:324-330 | the key set never changes and unknown ids are ignored; a flag ends true exactly when it was true or its id was reported; the score grows by 150 per objective flipped |
| Mission.ObjectivesIdempotent | streamlit_app.py:326-330 | repeating the same tags, in the same turn or a later one, changes nothing |
| Mission.ObjectivesStep | streamlit_app.py:326-330 | one loop pass flips a known false objective and adds the bonus, or changes nothing |
| Mission.Rating | streamlit_app.py:664-665 | the rating is `max(0, viability*10 − time_elapsed*5)`: never negative, never below the score, and one of the two |
| Mission.RatingMonotone | streamlit_app.py:664-665 | the rating rises with viability and falls as the mission takes longer |
| Mission.RatingBounds | streamlit_app.py:664-665 | from viability 0-100 the rating is at most 1000 and reaches 0 once elapsed ≥ 2·viability |
| OrderedDict.PutSpec | streamlit_app.py:298 | writing a key replaces its value in place, or appends it at the end, and changes no other key |
| OrderedDict.PutAllGet | streamlit_app.py:182 | after writing pairs in order, a key holds the value of its last pair, or its old value when no pair has it |
| GameSession.ReconcileOf | streamlit_app.py:291-355 | the reconciliation on the state: the location step, then (unless it raised) discovery, objectives, the win phrase and the split reply, with the outcome (stated by the rows below) |
| GameSession.CommandOf | streamlit_app.py:810-823 | the command step on the state: the backdoor, or one minute off, the user message and the reconciliation (stated by CommandBackdoor and CommandTurn) |
| GameSession.ReconcileValid | streamlit_app.py:294-353 | a turn keeps one entry per unit and no POI discovered twice |
| GameSession.ReconcileMonotone | streamlit_app.py:294-330 | across a turn, discovered ids are only appended and the objective key set is fixed; a reached objective stays reached; the efficiency score never falls |
| GameSession.ReconcileWithoutTag | streamlit_app.py:294-355 | a reply without a location tag leaves the locations unchanged and raises nothing; discovery and the later blocks still run |
| GameSession.ReconcileMessages | streamlit_app.py:300-353 | a completed turn appends one recon report per new id, and after them the split reply with its cleaned text, last |
| GameSession.ReconcileWin | streamlit_app.py:333-340 | the win phrase sets mission_complete and time_elapsed = 60 − mission_time, whatever the objectives; without it neither changes |
| GameSession.ReconcileCrash | streamlit_app.py:296-298 | on the ValueError, only the locations written before the bad pair differ from the state before |
| GameSession.CommandBackdoor | streamlit_app.py:812-816 | the backdoor completes the mission with the clock as it stands, with no clock tick and no message |
| GameSession.CommandTurn | streamlit_app.py:820-822 | any other prompt takes exactly one minute off the clock and is appended as a user message before the reply's messages, even when the reconciliation raises |
| GameSession.BackdoorAnyCase | streamlit_app.py:812 | any casing of the backdoor word anywhere in the prompt triggers it |
| GameSession.CommandValid | streamlit_app.py:810-823 | a command keeps the state valid |
| GameSession.Session.constructor | streamlit_app.py:129-141 | a fresh session holds the defaults: each unit at the insertion point, clock 60, score 1000, viability 100, nothing discovered |
| GameSession.Session.ParseLocations | streamlit_app.py:294-298 | the loop writes the pairs of the first location tag in order until one fails to split |
| GameSession.Session.DiscoverPois | streamlit_app.py:300-319 | the loop over the locations performs the discovery fold |
| GameSession.Session.ScanLocation | streamlit_app.py:303-318 | one location name appends its POI's id and recon report when the POI is new, or changes nothing |
| GameSession.Session.ReachObjectives | streamlit_app.py:324-330 | the loop over the reported ids performs the objective fold |
| GameSession.Session.CheckWin | streamlit_app.py:333-340 | the win phrase sets the completion flag and the elapsed time; otherwise nothing changes |
| GameSession.Session.AppendReply | streamlit_app.py:346-353 | the split reply is appended with its raw text |
| GameSession.Session.Finish | streamlit_app.py:300-355 | the blocks after the location step, in order |
| GameSession.Session.Reconcile | streamlit_app.py:291-355 | the whole reconciliation in place: the new fields and the outcome are those of `ReconcileOf`, and the state stays valid |
| GameSession.Session.OpenBackdoor | streamlit_app.py:813-814 | the mission is complete and the elapsed time is 60 − mission_time |
| GameSession.Session.SendPrompt | streamlit_app.py:820-821 | one minute off the clock and the user message appended; nothing else changes |
| GameSession.Session.Command | streamlit_app.py:810-823 | one command in place: the new fields and the outcome are those of `CommandOf`, and the state stays valid |
| Identity.HandshakeOf | streamlit_app.py:533-541 | the handshake on the store: a first login records the user, a switch scrubs and reruns, the same user changes nothing (stated by the Handshake rows below) |
| Identity.ScrubbedSpec | streamlit_app.py:537-539 | the scrub keeps exactly the whitelisted keys present, with their values, and drops active_user |
| Identity.HandshakeRecordsUser | streamlit_app.py:533-540 | afterwards the session belongs to the logged-in user |
| Identity.HandshakeSwitch | streamlit_app.py:535-541 | a user switch leaves only the whitelisted keys (with their values) and active_user, and reruns the script |
| Identity.HandshakeKeeps | streamlit_app.py:533-535 | without a switch, every key keeps its value and the script does not rerun |
| Identity.HandshakeSettles | streamlit_app.py:541 | the rerun after a switch meets the same user and changes nothing |
| Identity.SessionStore.Handshake | streamlit_app.py:533-541 | the deletion loop leaves the store the handshake describes |

## Left out

- The language-model call and its prompts: the reply is an input string of `Session.Reconcile` and `Session.Command`.
- Firestore and cloud-storage persistence, secrets and credentials: these are external I/O.
- Authentication and registration, and the `mission_started` and `chat_input` gating of the command step: these are library and UI code.
- The logged-in username is a parameter of `Identity.SessionStore.Handshake`.
- The XML loading of the POI catalogue and the initial objectives: both are inputs, already parsed. A POI id that is missing (`None`) is modelled as the empty id, and both are skipped by discovery.
- All rendering: the chat bubbles, the sidebar, the map and its floating-point offsets, `st.toast`, and the `.title()` checklist labels.
- `st.rerun` is modelled only through its effect on control flow: the backdoor ends the command before the clock tick, and the identity switch reports a rerun.
- Re-initialisation on a rerun is not modelled. `Session.constructor` sets the defaults once; the `mission_complete` and `time_elapsed` keys, which the source reads with defaults, start as false and 0.
- Text.Lower, Text.Upper: these model ASCII case mapping only. For the win phrase this decides the same as Python, since only U+0130 and U+212A lower to ASCII letters, and neither can complete the phrase. The recon header's `loc_name.upper()` (Mission.ReconContent) differs from Python for a non-ASCII name: "Straße" becomes "STRAßE" in the model, "STRASSE" in Python. For the backdoor, a prompt holding U+1E9A (which Python upper-cases to "A" followed by U+02BE) is not seen as the backdoor word in the model, but is in Python.
- Tags.IsWordChar: `\w` is modelled as ASCII letters, digits and `_`. Python's Unicode word characters beyond ASCII are not modelled.
- Identity.SessionStore.Handshake: the keys are deleted one at a time in an arbitrary order, not in the session's key order. This does not change the result.
