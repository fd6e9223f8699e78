# Slack channel prefix hider — verified model

A Dafny model of the label-synchronisation engine of the Slack Channel Prefix
Hider browser extension, and of the parser of its settings form.

The engine rewrites the channel names of Slack's sidebar. For each
channel-name element it drops the first configured prefix that starts the
name, then at most one `_`, `-` or space. It remembers each element's
original text in `originalNameMap` and the text it last wrote in
`appliedNameMap`. A change of the prefix list therefore recomputes names from
the originals, and a text the host puts in later is told apart from the
engine's own write. Requests to reconcile are batched until the next
animation frame. A mutation observer on the sidebar turns the host's changes
into such requests. It also forgets the state of removed elements.

Layout, one module per file:

- `prefix_transform.dfy` (`PrefixTransform`): `computeHiddenName`, written
  as a recursive function.
- `label_state.dfy` (`LabelState`): the two side tables and the reconciler
  as pure functions over a `World`. A `World` holds the label texts and both
  tables. Every property takes a `Reading`:
  - `AsWritten` tests the tables with JavaScript truthiness, as the code
    does at lines 12 and 17;
  - `Intended` tests for the presence of an entry.
- `batching.dfy` (`Batching`): the scheduler state
  (`pendingSpans`, `scheduleAll`, outstanding frame) as a value, with
  `scheduleHide` and the choice of labels `flushPending` makes.
- `mutations.dfy` (`Mutations`): the classification of a batch of mutation
  records.
- `engine.dfy` (`LabelSync`): the script itself. The class `Page` holds
  label texts, connected labels and sidebar roots. The class `Engine` holds
  the script's variables. Its methods have the loops and updates of the
  source and are proved against the functions above. An engine is built
  with a `Reading`: `AsWritten` is the script as shipped.
- `prefix_input.dfy` (`PrefixInput`): `parsePrefixesInput` of the settings
  form.

A channel-name element is an abstract `Label` (a natural number). The DOM is
a map from label to text plus the set of labels still in the document. An
added subtree is given by the set of labels inside it. The frame callback is
a method the caller invokes (`FlushPending`).

## Model

| member | source | states |
|---|---|---|
| PrefixTransform.StartsWith | content_script.js:22 | definition: `name.startsWith(prefix)`, the prefix is no longer than the name and equals its head |
| PrefixTransform.IsSeparator | content_script.js:23 | definition: the character class `[_\- ]` of the regular expression |
| PrefixTransform.StripSeparator | content_script.js:23 | exactly one leading `_`, `-` or space is removed when there is one, nothing otherwise; the result is a suffix |
| PrefixTransform.ComputeHiddenName | content_script.js:20-27 | the shown name is always a suffix of the name |
| PrefixTransform.NoMatchKeepsName | content_script.js:20-27 | a name no prefix starts is returned unchanged |
| PrefixTransform.FirstMatchWins | content_script.js:21-24 | the first matching prefix in list order decides the result, whatever later prefixes match |
| PrefixTransform.ChangedNameLostAPrefix | content_script.js:21-24 | a changed name is some matching prefix's remainder with at most one separator dropped |
| PrefixTransform.FirstNotLongestExample | content_script.js:21-24 | `["foo","foo-bar"]` on "foo-bar-baz" gives "bar-baz" |
| PrefixTransform.SingleSeparatorExample | content_script.js:23 | "foo__baz" with "foo" gives "_baz": only one separator goes |
| PrefixTransform.NoMatchExample | content_script.js:26 | "baz" with "foo" stays "baz" |
| PrefixTransform.TeamDesignExample | content_script.js:20-27 | "team-design" with "team" gives "design" |
| PrefixTransform.RepeatedPrefixExample | content_script.js:21-23 | one application strips one occurrence: "foo-foo-x" gives "foo-x", which gives "x" |
| LabelState.Reached | content_script.js:41-44 | a pass reaches only connected labels, and only requested ones when labels are named |
| LabelState.NeedsCapture | content_script.js:12 | definition: the test of line 12, no original stored, or an applied text that counts as there and differs from the current text |
| LabelState.ResolvedName | content_script.js:17 | definition: the stored original after the capture when it counts as there, otherwise the current text; its cases are stated by GetOriginalNameCases |
| LabelState.Capture | content_script.js:12-15 | after the test of line 12 an original is stored and the texts are untouched |
| LabelState.GetOriginalNameCases | content_script.js:12-17 | the tables are reset exactly when no original is stored or a non-empty applied text differs from the current text; the name returned is the original, or the current text when the original is "" |
| LabelState.Forget | content_script.js:146-149 | removed labels lose both entries; every other entry and all texts stay |
| LabelState.SameEntrySameOutcome | content_script.js:8-37 | what the engine does with a label depends only on that label's text and entries |
| LabelState.StepWorld | content_script.js:29-38 | definition: one applyPrefixesToSpan, the capture, the shown text written to the label and recorded as applied; ApplyOne equates it with the one-label pass |
| LabelState.ApplyAll | content_script.js:40-48 | definition: every reached label reconciled, all others untouched; PassedOverIsApplyAll shows it is the label-by-label description in any order |
| LabelState.ApplyAllSettles | content_script.js:29-38 | after a pass each reached label's text equals its applied entry and the transform of its stored original (when that original counts); other labels are untouched |
| LabelState.ApplyAllConsistent | content_script.js:12-37 | a pass keeps the tables consistent: applied entries only beside originals, and each a suffix of a non-empty original |
| LabelState.ForgetConsistent | content_script.js:146-149 | forgetting labels keeps the tables consistent |
| LabelState.PassedOverIsApplyAll | content_script.js:43-47 | a pass over a label set is fully determined label by label, so the order of the loop does not matter |
| LabelState.ApplyAllPassesOver | content_script.js:43-47 | the pass function meets the label-by-label description |
| LabelState.PassStep | content_script.js:43-47 | a pass over one more label extends a pass over the labels before it |
| LabelState.StepWorldElsewhere | content_script.js:29-38 | one applyPrefixesToSpan touches no other label's text or entries |
| LabelState.CaptureElsewhere | content_script.js:12-15 | the capture for one label touches no other label's entries |
| LabelState.ApplyOne | content_script.js:29-38 | a pass over one label is what applyPrefixesToSpan does to it |
| LabelState.OwnWriteKeepsEntries | content_script.js:12 | a label that shows what the engine applied keeps both entries |
| LabelState.PassPreservesResolution | content_script.js:12-17 | after a pass the stored original and the resolved name read back unchanged (as written: unless the original is "" and the text is not) |
| LabelState.IdempotentPass | content_script.js:12-37 | a second pass with the same prefixes changes nothing; as written this needs no label with original "" and non-empty text |
| LabelState.ReconfigureUsesOriginal | content_script.js:17-31 | after a pass, a pass with other prefixes shows the transform of the stored original (as written: only when the stored original is not ""; read by presence: always) |
| LabelState.EmptyPrefixesRestore | content_script.js:17-31 | reapplying with no prefixes restores the stored original text (as written: only when the stored original is not ""; read by presence: always) |
| LabelState.HostOverwriteRecaptured | content_script.js:12-15 | a host text that differs from what the engine wrote becomes the new original (as written: only when the engine wrote a non-empty text) |
| LabelState.HostOverwriteOfEmptyMissed | content_script.js:12 | as written, a host overwrite of a label the engine emptied keeps the old original |
| LabelState.EmptyFirstTextIsNeverRestored | content_script.js:12-17 | as written, a label first seen as "" and then filled with "team-design" shows "design", and clearing the prefixes leaves "design" |
| LabelState.EmptyFirstTextRestoredWhenReadByPresence | content_script.js:12-17 | the same history read by presence restores "team-design" |
| LabelState.EmptyFirstTextStripsTwice | content_script.js:12-17 | as written, such a label is stripped again on each pass: "foo-foo-x" shows "foo-x", then "x" |
| Batching.Schedule | content_script.js:66-80 | after scheduleHide a frame is outstanding, so no request waits unserved |
| Batching.RequestsFrame | content_script.js:77 | definition: `rafId === null`, no frame outstanding |
| Batching.ScheduleEach | content_script.js:66-80 | definition: the scheduler after a window of requests in order; WindowAccumulates states its labels, flag and frame |
| Batching.FramesRequested | content_script.js:77-79 | definition: the number of requestAnimationFrame calls in a window; OneFramePerWindow bounds it by one |
| Batching.RequestedLabels | content_script.js:67-72 | the pending labels gained are exactly those named by targeted requests |
| Batching.FlushTargets | content_script.js:55-57 | the flush reconciles all connected labels when the flag is set, otherwise only pending labels still connected |
| Batching.OneFramePerWindow | content_script.js:77-79 | any number of requests asks for at most one frame, and none while one is outstanding |
| Batching.WindowAccumulates | content_script.js:66-79 | a window adds exactly the requested labels, sets the flag exactly when some request had no argument, and leaves a frame outstanding when it held a request |
| Batching.RecomputeAllSubsumes | content_script.js:55-57 | a request with no argument makes the flush cover every connected label |
| Batching.TargetedWindow | content_script.js:55-57 | without such a request the flush covers the requested labels that are still connected |
| Mutations.AddedLabels | content_script.js:144 | definition: the labels of the added subtrees; AddedLabelsMembers states membership both ways |
| Mutations.RemovedLabels | content_script.js:145-150 | definition: the removed nodes that are labels; RemovedLabelsMembers states membership both ways |
| Mutations.Affected | content_script.js:140-159 | definition: `affectedSpans` after the batch; AffectedMembers states membership both ways |
| Mutations.Forgotten | content_script.js:145-150 | definition: the labels whose table entries the batch deletes; ForgottenMembers states membership both ways |
| Mutations.Classify | content_script.js:161-165 | definition: recompute-all when no label was affected, otherwise exactly the affected labels; ClassifyMeans states it both ways |
| Mutations.AddedLabelsMembers | content_script.js:144 | a label is collected exactly when some added node holds it |
| Mutations.RemovedLabelsMembers | content_script.js:145-150 | a record forgets exactly the removed nodes that are labels |
| Mutations.AffectedMembers | content_script.js:140-159 | a batch's affected labels are exactly those some record names |
| Mutations.ForgottenMembers | content_script.js:145-150 | a batch forgets exactly the labels some record removes |
| Mutations.ClassifyMeans | content_script.js:161-165 | recompute-all is requested exactly when no record names a label; otherwise exactly the named labels are requested |
| Mutations.OwnWritesRecomputeAll | content_script.js:139-165 | records caused only by text assignments forget nothing and request recompute-all |
| LabelSync.ChangedStep | content_script.js:33-35 | assigning one label's text adds it to the changed labels exactly when the text differs from its first text |
| LabelSync.HideStep | content_script.js:43-46 | one turn of the loop extends the pass and counts one more changed label exactly when the text changed |
| LabelSync.OwnWritesSettle | content_script.js:139-165 | after a recompute-all flush, the records of the engine's own writes lead to a flush that changes nothing and writes nothing (as written: given no label with original "" and non-empty text) |
| LabelSync.StepWorldApplies | content_script.js:29-38 | the texts and tables that one label's reconciliation leaves are the pass over that label alone, with the same labels rendered and consistent tables |
| LabelSync.RecomputeAllReachesAll | content_script.js:55-57 | a recompute-all request on an idle scheduler flushes every connected label |
| LabelSync.Page.SetText | content_script.js:34 | an assignment changes one label's text and counts one write |
| LabelSync.Engine.constructor | content_script.js:4-52 | the script starts with no prefixes, empty tables and an idle scheduler, reading the tables as given |
| LabelSync.Engine.GetOriginalName | content_script.js:8-18 | the tables become the capture of line 12 and the result is the resolved name, under the engine's reading |
| LabelSync.Engine.ApplyPrefixesToSpan | content_script.js:29-38 | page and tables become a one-label pass; the text is written only when it differs; the tables stay consistent |
| LabelSync.Engine.HidePrefixes | content_script.js:40-48 | page and tables become a pass over the reached labels; one write per label whose text changed |
| LabelSync.Engine.ReconcileOne | content_script.js:43-46 | one loop turn on a connected label keeps the loop invariant with that label done |
| LabelSync.Engine.SkipOne | content_script.js:44 | a label no longer in the document is passed over unchanged |
| LabelSync.Engine.ScheduleHide | content_script.js:66-80 | the scheduler becomes `Schedule` of its old value; a frame is counted only when none was outstanding |
| LabelSync.Engine.FlushPending | content_script.js:54-64 | the scheduler is idle afterwards and page and tables are a pass over the flush targets of the old scheduler state |
| LabelSync.Engine.LoadPrefixes | content_script.js:83-90 | the prefixes become the stored list, or empty when none is stored, and recompute-all is scheduled |
| LabelSync.Engine.RefreshObserverTargets | content_script.js:124-137 | the result is true exactly when a sidebar root exists, and the observer then watches exactly the roots |
| LabelSync.Engine.ObserveRecord | content_script.js:143-158 | one record adds its labels to the affected set and deletes its removed labels from both tables |
| LabelSync.Engine.ObserveBatch | content_script.js:140-159 | the affected set is `Affected` of the batch and both tables lose `Forgotten` of the batch |
| LabelSync.Engine.OnMutations | content_script.js:139-168 | the tables forget the removed labels, the scheduler gets the classified request, and the observer is re-attached |
| LabelSync.TeamDesignScenario | content_script.js:8-64 | run on the objects, prefix "team" shows "team-design" as "design" and clearing the prefixes restores "team-design" |
| LabelSync.FirstPass | content_script.js:8-38 | a pass over a label the tables do not know stores its text as the original and shows the text with its prefix hidden, under either reading |
| LabelSync.FirstCapture | content_script.js:12-17 | for a label the tables do not know, the text becomes the original and is the name resolved |
| LabelSync.FilledPass | content_script.js:8-38 | once the host fills a label stored as "" with a non-empty text, a pass shows that text with its prefix hidden; as written the stored original stays "", read by presence it becomes the new text |
| LabelSync.FilledCapture | content_script.js:12-17 | for that filled-in label, as written nothing is recaptured, read by presence the new text is; the name resolved is the new text either way |
| LabelSync.ClearedPass | content_script.js:8-38 | with no prefixes, a label showing what the engine last wrote shows its stored original when that counts as there, and keeps its text otherwise |
| LabelSync.LoadOverLabel | content_script.js:83-90 | on the objects, a rendered label and the stored list `["team"]` leave a recompute-all request that reaches exactly that label |
| LabelSync.RenderLabel | content_script.js:54-64 | the first frame shows the label's text with "team" hidden and stores the text as its original |
| LabelSync.ClearPrefixes | content_script.js:83-90 | clearing the stored prefixes and running the next frame shows the stored original when it counts, the current text otherwise |
| LabelSync.FillLabel | content_script.js:139-168 | the host's new text "team-design" reaches the observer callback as one `characterData` record, which forgets nothing and schedules exactly that label |
| LabelSync.OneTextChange | content_script.js:153-165 | a batch of one `characterData` record of a label forgets nothing and is classified as a request for that label alone |
| LabelSync.HideFilledLabel | content_script.js:54-64 | the next frame shows "design" and leaves the stored original as FilledPass states |
| LabelSync.EmptyFirstTextScenario | content_script.js:8-64 | the first finding below run on the engine objects: the label shows "design" after hiding, and after clearing the prefixes "design" as written, "team-design" read by presence |
| PrefixInput.TrimStart | popup.js:83 | the result is a tail of the input that does not start with whitespace |
| PrefixInput.TrimEnd | popup.js:83 | the result is a head of the input that does not end with whitespace |
| PrefixInput.TrimStartRemovesWhitespace | popup.js:83 | only whitespace is removed at the start |
| PrefixInput.TrimEndRemovesWhitespace | popup.js:83 | only whitespace is removed at the end |
| PrefixInput.Trim | popup.js:83 | a trimmed line has no whitespace at either end, gains no line break, and a trimmed line is its own trim |
| PrefixInput.Lines | popup.js:82 | a split gives one more piece than there are newlines, none holding a newline |
| PrefixInput.TrimAll | popup.js:83 | each line is replaced by its trimmed form |
| PrefixInput.KeepFirstNonEmpty | popup.js:84-90 | the filters never lengthen the list |
| PrefixInput.KeepFirstNonEmptyKeeps | popup.js:84-90 | kept lines are non-empty, not seen before, taken from the input and pairwise distinct |
| PrefixInput.ParsePrefixesInput | popup.js:79-92 | every entry is non-empty, trimmed and newline-free; no entry occurs twice; no more entries than lines |
| PrefixInput.KeepFirstNonEmptyMembers | popup.js:84-90 | a line is kept exactly when it is non-empty, not seen and in the input |
| PrefixInput.KeepFirstNonEmptyOrder | popup.js:85-90 | kept lines appear in the order of their first occurrences |
| PrefixInput.TrimAllMembers | popup.js:83 | a string is among the trimmed lines exactly when some line trims to it |
| PrefixInput.ParsedMembers | popup.js:81-91 | a string is parsed exactly when it is non-empty and the trimmed form of some line |
| PrefixInput.ParsedInFirstOccurrenceOrder | popup.js:85-90 | parsed entries appear in the order of first occurrence of their trimmed lines |
| PrefixInput.Join | popup.js:121 | definition: `stored.join('\n')`; JoinLines and LinesJoin make it the inverse of the split |
| PrefixInput.JoinLines | popup.js:82 | joining the pieces of a split with '\n' gives the text back |
| PrefixInput.LinesJoin | popup.js:82 | splitting the join of newline-free lines gives the lines back |
| PrefixInput.LinesOfLine | popup.js:82 | a text with no newline splits into itself |
| PrefixInput.LinesOfLineThenNewline | popup.js:82 | a line, a newline and more text split into the line and the pieces of the rest |
| PrefixInput.TrimAllTrimmed | popup.js:83 | trimming already trimmed lines changes nothing |
| PrefixInput.KeepFirstNonEmptyOfDistinct | popup.js:84-90 | distinct, non-empty, unseen lines are all kept in order |
| PrefixInput.ParseJoinRoundTrip | popup.js:79-92 | parsing a parsed list joined with '\n', as the form shows it, gives the same list |

## Left out

- `chrome.storage.sync`, `chrome.runtime.onMessage` and `chrome.tabs` messaging are left out. The storage read becomes the parameter of `LoadPrefixes`: the stored array, or none when the value is missing or not an array. The stored entries are taken to be strings.
- The `requestAnimationFrame` callback, the `setTimeout` retry of `startObserver` and the observer's `observe`/`disconnect` calls are left out as host timing. A frame firing is a call of `FlushPending`. Re-attaching is recorded as the set of watched roots.
- DOM querying is abstract. This covers `querySelectorAll`, `matches`, node types and the subtree walk of `collectChannelNameElements` (lines 99-116). An added node is given by its set of labels, and a changed text node by its label owner, if any.
- The `instanceof HTMLElement` test of line 44 is left out: every label is an element.
- WeakMap garbage collection is not modelled. Maps with explicit deletion stand in for it. As in the code, only a removed node that is itself a label is forgotten (line 146). Labels inside a removed container keep their entries.
- Lengths and characters are Dafny `char`s, not UTF-16 code units.
- The regular expression of line 23 is modelled directly as a one-character strip.
- The settings form is not modelled: its status messages, timers, colours, the DOMContentLoaded handler and the notification count of popup.js.
- The engine built with `Intended` stands for the corrected script; the shipped script is the engine built with `AsWritten`.
- LabelState.IdempotentPass: as written this is proved only for labels whose stored original is not "" or whose text is "". The findings below show that it fails otherwise.
- LabelState.HostOverwriteRecaptured: as written this is proved only when the engine wrote a non-empty text. The findings below show that it fails otherwise.
- LabelSync.OwnWritesSettle: this carries the same condition as IdempotentPass.
- LabelState.ReconfigureUsesOriginal: as written this is proved only when the stored original is not "". The first finding below shows that it fails otherwise; read by presence the condition always holds.
- LabelState.EmptyPrefixesRestore: as written this is proved only when the stored original is not "", for the same reason as ReconfigureUsesOriginal.

## Findings

| source | as written | input that shows it | evidently intended | confidence | as-written member | corrected member |
|---|---|---|---|---|---|---|
| content_script.js:12-17 | an original of "" reads as absent (`\|\| currentText`) but still blocks recapture (`has`) | a label first seen with text "", later filled by the host with "team-design", prefixes `["team"]` then `[]` | clearing the prefixes shows "team-design" again | medium, not executed | LabelState.EmptyFirstTextIsNeverRestored | LabelState.EmptyFirstTextRestoredWhenReadByPresence |
| content_script.js:12-17 | such a label resolves to its current text, so each pass strips the shown text again | the same label filled with "foo-foo-x", prefixes `["foo"]`, two passes give "foo-x" then "x" | a second pass with unchanged prefixes changes nothing | medium, not executed | LabelState.EmptyFirstTextStripsTwice | LabelState.IdempotentPass |
| content_script.js:12 | an applied text of "" reads as false, so a host overwrite of it is not captured | a label whose name is exactly a prefix, emptied by the engine, then given a new text by the host | the host's text becomes the new original | medium, not executed | LabelState.HostOverwriteOfEmptyMissed | LabelState.HostOverwriteRecaptured |

In each row the corrected member is proved with `Reading` set to `Intended`. LabelSync.EmptyFirstTextScenario runs the first row's history on the engine objects under both readings. `Intended` tests table entries by presence, as `Map.has` would. For IdempotentPass, HostOverwriteRecaptured, ReconfigureUsesOriginal and EmptyPrefixesRestore, that reading carries no side condition.
