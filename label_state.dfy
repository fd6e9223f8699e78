/**
 The label state store and the reconciler of the content script
 (content_script.js:8-18, 29-48), as functions of the page's label texts and
 the two side tables.

 `originalNameMap` holds, per label, the text taken as the label's real name;
 `appliedNameMap` holds the text the engine itself last wrote. When a label's
 text no longer equals what the engine wrote, the host has replaced it, and
 the new text becomes the original. The tests on lines 12 and 17 use
 JavaScript truthiness, so an empty string reads as "nothing stored"; the
 `Reading` parameter states each property either for the code as written or
 for a reading that tests for the presence of an entry, as `Map.has` does.
 */
module LabelState {
  import opened PrefixTransform

  /** The identity of a channel-name element of the sidebar. */
  type Label = nat

  datatype Option<T> = None | Some(value: T)

  /** What a reconciliation pass or a request covers: every label in the
      document (hidePrefixes and scheduleHide called without an argument) or
      the given labels. */
  datatype Target = AllLabels | Only(labels: set<Label>)

  /** The labels a pass over `target` reaches: all labels the document holds
      (line 41), or the given ones that are still in the document (line 44). */
  function Reached(target: Target, connected: set<Label>): (reached: set<Label>)
    ensures reached <= connected
    ensures target.Only? ==> reached <= target.labels
  {
    match target
    case AllLabels => connected
    case Only(labels) => labels * connected
  }

  /** The text of every label the host has rendered, and the two side tables. */
  datatype World = World(text: map<Label, string>, original: map<Label, string>, applied: map<Label, string>)

  /** How getOriginalName tests its tables: as written, with JavaScript
      truthiness (`undefined` and "" are both false), or by presence of an
      entry, as `Map.has` does. */
  datatype Reading = AsWritten | Intended

  /** `map.get(label)`. */
  function Get(m: map<Label, string>, l: Label): Option<string> {
    if l in m then Some(m[l]) else None
  }

  /** Whether a looked-up entry counts as there under `reading`. */
  predicate Holds(v: Option<string>, reading: Reading) {
    match reading
    case AsWritten => v.Some? && v.value != ""
    case Intended => v.Some?
  }

  /** The test of line 12: no original is stored yet, or the engine wrote
      something and the label now shows something else. */
  predicate NeedsCapture(w: World, l: Label, reading: Reading)
    requires l in w.text
  {
    l !in w.original || (Holds(Get(w.applied, l), reading) && w.text[l] != w.applied[l])
  }

  /** The tables after lines 12-15: on a capture the current text becomes the
      original and the applied entry is dropped. */
  function Capture(w: World, l: Label, reading: Reading): (c: World)
    requires l in w.text
    ensures l in c.original && c.text == w.text
  {
    if NeedsCapture(w, l, reading)
    then w.(original := w.original[l := w.text[l]], applied := w.applied - {l})
    else w
  }

  /** getOriginalName as the code reads it: the current text becomes the
      original, and the applied entry goes, only when no original is stored
      or a non-empty applied text differs from the current text; otherwise
      the tables stay. The name returned is the stored original, or the
      current text when that original is "". */
  lemma GetOriginalNameCases(w: World, l: Label)
    requires l in w.text
    ensures var c := Capture(w, l, AsWritten);
            var reset := l !in w.original || (l in w.applied && w.applied[l] != "" && w.text[l] != w.applied[l]);
            && (reset ==> c.original == w.original[l := w.text[l]] && c.applied == w.applied - {l})
            && (!reset ==> c == w)
            && ResolvedName(w, l, AsWritten) == if c.original[l] != "" then c.original[l] else w.text[l]
  {
  }

  /** The original stored for `l` once getOriginalName has run. */
  function StoredOriginal(w: World, l: Label, reading: Reading): string
    requires l in w.text
  {
    Capture(w, l, reading).original[l]
  }

  /** What getOriginalName returns (line 17): the stored original, or the
      current text when the stored original does not count as there. */
  function ResolvedName(w: World, l: Label, reading: Reading): string
    requires l in w.text
  {
    var o := Get(Capture(w, l, reading).original, l);
    if Holds(o, reading) then o.value else w.text[l]
  }

  /** The text applyPrefixesToSpan gives `l` (line 31). */
  function Shown(w: World, l: Label, prefixes: seq<string>, reading: Reading): string
    requires l in w.text
  {
    ComputeHiddenName(ResolvedName(w, l, reading), prefixes)
  }

  /** The page and tables after applyPrefixesToSpan has run on every label of
      `reached`. Each run touches only its own label's text and entries, so
      the order of the runs does not matter. */
  function ApplyAll(w: World, reached: set<Label>, prefixes: seq<string>, reading: Reading): World
    requires reached <= w.text.Keys
  {
    World(TextAfter(w, reached, prefixes, reading),
          OriginalAfter(w, reached, reading),
          AppliedAfter(w, reached, prefixes, reading))
  }

  /** Label texts after a pass: each reached label shows its transform
      (lines 33-35). */
  function TextAfter(w: World, reached: set<Label>, prefixes: seq<string>, reading: Reading): map<Label, string>
    requires reached <= w.text.Keys
  {
    map l | l in w.text :: if l in reached then Shown(w, l, prefixes, reading) else w.text[l]
  }

  /** `originalNameMap` after a pass: each reached label has its captured or
      kept original (lines 12-15). */
  function OriginalAfter(w: World, reached: set<Label>, reading: Reading): map<Label, string>
    requires reached <= w.text.Keys
  {
    map l | l in w.original.Keys + reached ::
      if l in reached then StoredOriginal(w, l, reading) else w.original[l]
  }

  /** `appliedNameMap` after a pass: each reached label records what it was
      given (line 37). */
  function AppliedAfter(w: World, reached: set<Label>, prefixes: seq<string>, reading: Reading): map<Label, string>
    requires reached <= w.text.Keys
  {
    map l | l in w.applied.Keys + reached ::
      if l in reached then Shown(w, l, prefixes, reading) else w.applied[l]
  }

  /** The tables after the observer forgot the removed labels (lines 146-149). */
  function Forget(w: World, removed: set<Label>): (f: World)
    ensures f.text == w.text
    ensures forall l :: l in removed ==> l !in f.original && l !in f.applied
    ensures forall l :: l !in removed ==> Get(f.original, l) == Get(w.original, l)
    ensures forall l :: l !in removed ==> Get(f.applied, l) == Get(w.applied, l)
  {
    w.(original := w.original - removed, applied := w.applied - removed)
  }

  /** The invariant of the two tables: an applied entry exists only beside an
      original, and what the engine showed is a tail of a non-empty original. */
  ghost predicate Consistent(w: World) {
    && w.applied.Keys <= w.original.Keys
    && forall l :: l in w.applied && w.original[l] != "" ==> IsSuffix(w.applied[l], w.original[l])
  }

  /** Two worlds that agree on everything stored for `l`. */
  predicate SameEntry(w: World, v: World, l: Label) {
    && Get(w.text, l) == Get(v.text, l)
    && Get(w.original, l) == Get(v.original, l)
    && Get(w.applied, l) == Get(v.applied, l)
  }

  /** What is stored for a label alone decides what the engine does with it. */
  lemma SameEntrySameOutcome(w: World, v: World, l: Label, prefixes: seq<string>, reading: Reading)
    requires l in w.text && SameEntry(w, v, l)
    ensures l in v.text
    ensures StoredOriginal(w, l, reading) == StoredOriginal(v, l, reading)
    ensures ResolvedName(w, l, reading) == ResolvedName(v, l, reading)
    ensures Shown(w, l, prefixes, reading) == Shown(v, l, prefixes, reading)
  {
    assert w.text[l] == v.text[l];
  }

  /** After a pass, every reached label shows the text just written, that
      text is recorded as applied, and it is the transform of the stored
      original whenever that original counts as there; no
      other label's text or entries change. */
  lemma ApplyAllSettles(w: World, reached: set<Label>, prefixes: seq<string>, reading: Reading)
    requires reached <= w.text.Keys
    ensures var after := ApplyAll(w, reached, prefixes, reading);
            && after.text.Keys == w.text.Keys
            && (forall l :: l in reached ==>
                  && l in after.original && l in after.applied
                  && after.text[l] == after.applied[l]
                  && (Holds(Get(after.original, l), reading) ==>
                        after.text[l] == ComputeHiddenName(after.original[l], prefixes)))
            && (forall l :: l !in reached ==> SameEntry(after, w, l))
  {
    var after := ApplyAll(w, reached, prefixes, reading);
    forall l | l in reached && Holds(Get(after.original, l), reading)
      ensures after.text[l] == ComputeHiddenName(after.original[l], prefixes)
    {
      assert after.original[l] == StoredOriginal(w, l, reading);
      assert Get(Capture(w, l, reading).original, l) == Some(after.original[l]);
    }
  }

  /** A pass keeps the tables consistent. */
  lemma ApplyAllConsistent(w: World, reached: set<Label>, prefixes: seq<string>, reading: Reading)
    requires reached <= w.text.Keys && Consistent(w)
    ensures Consistent(ApplyAll(w, reached, prefixes, reading))
  {
    var after := ApplyAll(w, reached, prefixes, reading);
    forall l | l in after.applied && after.original[l] != ""
      ensures IsSuffix(after.applied[l], after.original[l])
    {
      if l in reached {
        var o := StoredOriginal(w, l, reading);
        assert Get(Capture(w, l, reading).original, l) == Some(o);
        assert ResolvedName(w, l, reading) == o;
      }
    }
  }

  /** Forgetting labels keeps the tables consistent. */
  lemma ForgetConsistent(w: World, removed: set<Label>)
    requires Consistent(w)
    ensures Consistent(Forget(w, removed))
  {
  }

  /** `after` is what a pass over `reached` makes of `w`, stated label by
      label. */
  ghost predicate PassedOver(w: World, reached: set<Label>, prefixes: seq<string>, reading: Reading, after: World)
    requires reached <= w.text.Keys
  {
    && after.text.Keys == w.text.Keys
    && (forall l :: l in reached ==>
          && after.text[l] == Shown(w, l, prefixes, reading)
          && Get(after.original, l) == Some(StoredOriginal(w, l, reading))
          && Get(after.applied, l) == Some(Shown(w, l, prefixes, reading)))
    && (forall l :: l !in reached ==> SameEntry(after, w, l))
  }

  /** The pass function is the unique world that passes over `reached`. */
  lemma PassedOverIsApplyAll(w: World, reached: set<Label>, prefixes: seq<string>, reading: Reading, after: World)
    requires reached <= w.text.Keys
    ensures PassedOver(w, reached, prefixes, reading, after) <==> after == ApplyAll(w, reached, prefixes, reading)
  {
    if PassedOver(w, reached, prefixes, reading, after) {
      TextAfterExtensional(w, reached, prefixes, reading, after);
      OriginalAfterExtensional(w, reached, prefixes, reading, after);
      AppliedAfterExtensional(w, reached, prefixes, reading, after);
    }
    if after == ApplyAll(w, reached, prefixes, reading) {
      ApplyAllPassesOver(w, reached, prefixes, reading);
    }
  }

  /** The pass function passes over `reached`. */
  lemma ApplyAllPassesOver(w: World, reached: set<Label>, prefixes: seq<string>, reading: Reading)
    requires reached <= w.text.Keys
    ensures PassedOver(w, reached, prefixes, reading, ApplyAll(w, reached, prefixes, reading))
  {
    var after := ApplyAll(w, reached, prefixes, reading);
    forall l | l !in reached ensures SameEntry(after, w, l) {
      assert Get(after.text, l) == Get(w.text, l);
      assert Get(after.original, l) == Get(w.original, l);
      assert Get(after.applied, l) == Get(w.applied, l);
    }
  }

  lemma TextAfterExtensional(w: World, reached: set<Label>, prefixes: seq<string>, reading: Reading, after: World)
    requires reached <= w.text.Keys && PassedOver(w, reached, prefixes, reading, after)
    ensures after.text == TextAfter(w, reached, prefixes, reading)
  {
    var t := TextAfter(w, reached, prefixes, reading);
    forall l ensures Get(after.text, l) == Get(t, l) {
      if l !in reached { assert SameEntry(after, w, l); }
    }
    SameLookups(after.text, t);
  }

  lemma OriginalAfterExtensional(w: World, reached: set<Label>, prefixes: seq<string>, reading: Reading, after: World)
    requires reached <= w.text.Keys && PassedOver(w, reached, prefixes, reading, after)
    ensures after.original == OriginalAfter(w, reached, reading)
  {
    var o := OriginalAfter(w, reached, reading);
    forall l ensures Get(after.original, l) == Get(o, l) {
      if l in reached {
        assert Get(after.original, l) == Some(StoredOriginal(w, l, reading));
      } else {
        assert SameEntry(after, w, l);
      }
    }
    SameLookups(after.original, o);
  }

  lemma AppliedAfterExtensional(w: World, reached: set<Label>, prefixes: seq<string>, reading: Reading, after: World)
    requires reached <= w.text.Keys && PassedOver(w, reached, prefixes, reading, after)
    ensures after.applied == AppliedAfter(w, reached, prefixes, reading)
  {
    var a := AppliedAfter(w, reached, prefixes, reading);
    forall l ensures Get(after.applied, l) == Get(a, l) {
      if l in reached {
        assert Get(after.applied, l) == Some(Shown(w, l, prefixes, reading));
      } else {
        assert SameEntry(after, w, l);
      }
    }
    SameLookups(after.applied, a);
  }

  /** Two tables that answer every lookup alike are equal. */
  lemma SameLookups(m: map<Label, string>, n: map<Label, string>)
    requires forall l :: Get(m, l) == Get(n, l)
    ensures m == n
  {
    forall l | l in m ensures l in n && m[l] == n[l] {
      assert Get(m, l) == Get(n, l);
    }
    forall l | l in n ensures l in m {
      assert Get(m, l) == Get(n, l);
    }
  }

  /** A pass over one more label extends a pass over the others: the
      reconciler's loop may visit labels one at a time, in any order. */
  lemma PassStep(w: World, done: set<Label>, l: Label, prefixes: seq<string>, reading: Reading,
                 mid: World, after: World)
    requires done <= w.text.Keys && l in w.text && l !in done
    requires PassedOver(w, done, prefixes, reading, mid)
    requires PassedOver(mid, {l}, prefixes, reading, after)
    ensures PassedOver(w, done + {l}, prefixes, reading, after)
  {
    assert SameEntry(mid, w, l);
    SameEntrySameOutcome(mid, w, l, prefixes, reading);
    forall k | k in done
      ensures after.text[k] == Shown(w, k, prefixes, reading)
      ensures Get(after.original, k) == Some(StoredOriginal(w, k, reading))
      ensures Get(after.applied, k) == Some(Shown(w, k, prefixes, reading))
    {
      assert SameEntry(after, mid, k);
      assert Get(after.text, k) == Get(mid.text, k);
    }
    forall k | k !in done + {l} ensures SameEntry(after, w, k) {
      assert SameEntry(after, mid, k) && SameEntry(mid, w, k);
    }
  }

  /** The world applyPrefixesToSpan leaves behind: the capture of lines
      12-15, then the label shows its transform and the applied table records
      it (lines 33-37). */
  function StepWorld(w: World, l: Label, prefixes: seq<string>, reading: Reading): World
    requires l in w.text
  {
    var c := Capture(w, l, reading);
    var shown := Shown(w, l, prefixes, reading);
    World(w.text[l := shown], c.original, c.applied[l := shown])
  }

  lemma StepWorldElsewhere(w: World, l: Label, prefixes: seq<string>, reading: Reading, k: Label)
    requires l in w.text && k != l
    ensures SameEntry(StepWorld(w, l, prefixes, reading), w, k)
  {
    var c := Capture(w, l, reading);
    var shown := Shown(w, l, prefixes, reading);
    CaptureElsewhere(w, l, reading, k);
    UpdateElsewhere(w.text, l, shown, k);
    UpdateElsewhere(c.applied, l, shown, k);
  }

  /** A capture for `l` touches no other label's entries. */
  lemma CaptureElsewhere(w: World, l: Label, reading: Reading, k: Label)
    requires l in w.text && k != l
    ensures SameEntry(Capture(w, l, reading), w, k)
  {
    if NeedsCapture(w, l, reading) {
      UpdateElsewhere(w.original, l, w.text[l], k);
      assert Get(w.applied - {l}, k) == Get(w.applied, k);
    }
  }

  /** Assigning one key of a table leaves every other key's entry. */
  lemma UpdateElsewhere(m: map<Label, string>, l: Label, v: string, k: Label)
    requires k != l
    ensures Get(m[l := v], k) == Get(m, k)
  {
  }

  lemma StepWorldPassesOver(w: World, l: Label, prefixes: seq<string>, reading: Reading)
    requires l in w.text
    ensures PassedOver(w, {l}, prefixes, reading, StepWorld(w, l, prefixes, reading))
  {
    forall k | k !in {l} ensures SameEntry(StepWorld(w, l, prefixes, reading), w, k) {
      StepWorldElsewhere(w, l, prefixes, reading, k);
    }
  }

  /** A pass over one label is the step applyPrefixesToSpan takes. */
  lemma ApplyOne(w: World, l: Label, prefixes: seq<string>, reading: Reading)
    requires l in w.text
    ensures ApplyAll(w, {l}, prefixes, reading) == StepWorld(w, l, prefixes, reading)
  {
    StepWorldPassesOver(w, l, prefixes, reading);
    PassedOverIsApplyAll(w, {l}, prefixes, reading, StepWorld(w, l, prefixes, reading));
  }

  /** The engine reads its own last write as "no change": when a label shows
      exactly what was applied, the stored entries stay as they are. */
  lemma OwnWriteKeepsEntries(w: World, l: Label, reading: Reading)
    requires l in w.text && l in w.original && l in w.applied
    requires w.text[l] == w.applied[l]
    ensures Capture(w, l, reading) == w
  {
  }

  /** What one pass leaves behind for a reached label: the stored original is
      unchanged by the next read, and the label reads back the same name,
      provided that name does not come from the line-17 fallback on a
      non-empty text. */
  lemma {:induction false} PassPreservesResolution(w: World, reached: set<Label>, l: Label,
                                                   prefixes: seq<string>, reading: Reading)
    requires reached <= w.text.Keys && l in reached
    requires reading == Intended || StoredOriginal(w, l, reading) != "" || w.text[l] == ""
    ensures var after := ApplyAll(w, reached, prefixes, reading);
            && StoredOriginal(after, l, reading) == StoredOriginal(w, l, reading)
            && ResolvedName(after, l, reading) == ResolvedName(w, l, reading)
  {
    var after := ApplyAll(w, reached, prefixes, reading);
    var o := StoredOriginal(w, l, reading);
    assert after.original[l] == o && after.applied[l] == after.text[l];
    assert Capture(after, l, reading) == after;
    if !Holds(Some(o), reading) {
      assert reading == AsWritten && o == "";
      assert ResolvedName(w, l, reading) == w.text[l] == "";
      assert IsSuffix(after.text[l], "");
    }
  }

  /** Idempotence: a second pass over the same labels with the same prefixes
      changes nothing, so the mutation caused by the engine's own write does
      not start a diverging cycle. Under the code as written this needs every
      reached label either to have a non-empty stored original or to be
      empty. */
  lemma IdempotentPass(w: World, reached: set<Label>, prefixes: seq<string>, reading: Reading)
    requires reached <= w.text.Keys
    requires reading == Intended ||
             forall l :: l in reached ==> StoredOriginal(w, l, reading) != "" || w.text[l] == ""
    ensures var once := ApplyAll(w, reached, prefixes, reading);
            ApplyAll(once, reached, prefixes, reading) == once
  {
    var once := ApplyAll(w, reached, prefixes, reading);
    ApplyAllSettles(w, reached, prefixes, reading);
    forall l | l in reached
      ensures StoredOriginal(once, l, reading) == StoredOriginal(w, l, reading)
      ensures Shown(once, l, prefixes, reading) == Shown(w, l, prefixes, reading)
    {
      PassPreservesResolution(w, reached, l, prefixes, reading);
    }
    assert PassedOver(once, reached, prefixes, reading, once);
    PassedOverIsApplyAll(once, reached, prefixes, reading, once);
  }

  /** Changing the prefix list recomputes every reached label from its stored
      original, not from the text shown: after a pass with `prefixes`, a pass
      with `next` shows the transform of the original under `next`. */
  lemma ReconfigureUsesOriginal(w: World, reached: set<Label>, prefixes: seq<string>,
                                next: seq<string>, reading: Reading, l: Label)
    requires reached <= w.text.Keys && l in reached
    requires Holds(Some(StoredOriginal(w, l, reading)), reading)
    ensures var again := ApplyAll(ApplyAll(w, reached, prefixes, reading), reached, next, reading);
            && again.original[l] == StoredOriginal(w, l, reading)
            && again.text[l] == ComputeHiddenName(StoredOriginal(w, l, reading), next)
  {
    var once := ApplyAll(w, reached, prefixes, reading);
    PassPreservesResolution(w, reached, l, prefixes, reading);
    assert Get(Capture(once, l, reading).original, l) == Some(StoredOriginal(w, l, reading));
  }

  /** Reconfiguring to the empty prefix list restores the original text. */
  lemma EmptyPrefixesRestore(w: World, reached: set<Label>, prefixes: seq<string>, reading: Reading, l: Label)
    requires reached <= w.text.Keys && l in reached
    requires Holds(Some(StoredOriginal(w, l, reading)), reading)
    ensures ApplyAll(ApplyAll(w, reached, prefixes, reading), reached, [], reading).text[l] ==
            StoredOriginal(w, l, reading)
  {
    ReconfigureUsesOriginal(w, reached, prefixes, [], reading, l);
  }

  /** External overwrite detection: when the host replaces the
      text the engine wrote, the next read takes the new text as the
      original. As written this holds only when the engine wrote a non-empty
      text. */
  lemma HostOverwriteRecaptured(w: World, reached: set<Label>, prefixes: seq<string>,
                                reading: Reading, l: Label, replaced: string)
    requires reached <= w.text.Keys && l in reached
    requires replaced != Shown(w, l, prefixes, reading)
    requires reading == Intended || Shown(w, l, prefixes, reading) != ""
    ensures var once := ApplyAll(w, reached, prefixes, reading);
            var host := once.(text := once.text[l := replaced]);
            && StoredOriginal(host, l, reading) == replaced
            && ResolvedName(host, l, reading) == replaced
  {
    var once := ApplyAll(w, reached, prefixes, reading);
    var host := once.(text := once.text[l := replaced]);
    assert once.applied[l] == Shown(w, l, prefixes, reading);
    assert NeedsCapture(host, l, reading);
  }

  /** As written, a host overwrite of a label the engine emptied is missed:
      the applied entry "" reads as false on line 12, so the old original
      stays. */
  lemma HostOverwriteOfEmptyMissed(w: World, reached: set<Label>, prefixes: seq<string>,
                                   l: Label, replaced: string)
    requires reached <= w.text.Keys && l in reached
    requires Shown(w, l, prefixes, AsWritten) == ""
    ensures var once := ApplyAll(w, reached, prefixes, AsWritten);
            var host := once.(text := once.text[l := replaced]);
            StoredOriginal(host, l, AsWritten) == StoredOriginal(w, l, AsWritten)
  {
    var once := ApplyAll(w, reached, prefixes, AsWritten);
    var host := once.(text := once.text[l := replaced]);
    assert once.applied[l] == "";
    assert !NeedsCapture(host, l, AsWritten);
  }

  /** A label whose first seen text is "" keeps "" as its original under the
      code as written: once the host fills in "team-design", prefix "team"
      gives "design", and reconfiguring to no prefixes leaves "design"
      instead of restoring "team-design". */
  lemma EmptyFirstTextIsNeverRestored()
    ensures var start := World(map[0 := ""], map[], map[]);
            var first := ApplyAll(start, {0}, ["team"], AsWritten);
            var host := first.(text := first.text[0 := "team-design"]);
            var hidden := ApplyAll(host, {0}, ["team"], AsWritten);
            var cleared := ApplyAll(hidden, {0}, [], AsWritten);
            hidden.text[0] == "design" && cleared.text[0] == "design"
  {
    var start := World(map[0 := ""], map[], map[]);
    var first := ApplyAll(start, {0}, ["team"], AsWritten);
    assert ComputeHiddenName("", ["team"]) == "";
    assert first.original[0] == "" && first.applied[0] == "" && first.text[0] == "";
    var host := first.(text := first.text[0 := "team-design"]);
    assert !NeedsCapture(host, 0, AsWritten);
    assert ResolvedName(host, 0, AsWritten) == "team-design";
    TeamDesignExample();
    var hidden := ApplyAll(host, {0}, ["team"], AsWritten);
    assert hidden.text[0] == "design" && hidden.applied[0] == "design" && hidden.original[0] == "";
    assert !NeedsCapture(hidden, 0, AsWritten);
    assert ResolvedName(hidden, 0, AsWritten) == "design";
  }

  /** The same history under the reading by presence: the applied entry ""
      still counts, the host's text becomes the original, and clearing the
      prefixes restores "team-design". */
  lemma EmptyFirstTextRestoredWhenReadByPresence()
    ensures var start := World(map[0 := ""], map[], map[]);
            var first := ApplyAll(start, {0}, ["team"], Intended);
            var host := first.(text := first.text[0 := "team-design"]);
            var hidden := ApplyAll(host, {0}, ["team"], Intended);
            var cleared := ApplyAll(hidden, {0}, [], Intended);
            hidden.text[0] == "design" && cleared.text[0] == "team-design"
  {
    var start := World(map[0 := ""], map[], map[]);
    var first := ApplyAll(start, {0}, ["team"], Intended);
    assert ComputeHiddenName("", ["team"]) == "";
    assert first.original[0] == "" && first.applied[0] == "" && first.text[0] == "";
    var host := first.(text := first.text[0 := "team-design"]);
    assert NeedsCapture(host, 0, Intended);
    assert ResolvedName(host, 0, Intended) == "team-design";
    TeamDesignExample();
    EmptyPrefixesRestore(host, {0}, ["team"], Intended, 0);
  }

  /** As written, a label first seen empty and then filled by the host is
      stripped again on every pass until no prefix matches: "foo-foo-x"
      under prefix "foo" shows "foo-x" after one pass and "x" after the
      next, so a second pass is not a no-op. */
  lemma EmptyFirstTextStripsTwice()
    ensures var start := World(map[0 := ""], map[], map[]);
            var first := ApplyAll(start, {0}, ["foo"], AsWritten);
            var host := first.(text := first.text[0 := "foo-foo-x"]);
            var once := ApplyAll(host, {0}, ["foo"], AsWritten);
            var twice := ApplyAll(once, {0}, ["foo"], AsWritten);
            once.text[0] == "foo-x" && twice.text[0] == "x"
  {
    var start := World(map[0 := ""], map[], map[]);
    var first := ApplyAll(start, {0}, ["foo"], AsWritten);
    assert ComputeHiddenName("", ["foo"]) == "";
    assert first.original[0] == "" && first.applied[0] == "" && first.text[0] == "";
    var host := first.(text := first.text[0 := "foo-foo-x"]);
    assert !NeedsCapture(host, 0, AsWritten);
    assert ResolvedName(host, 0, AsWritten) == "foo-foo-x";
    RepeatedPrefixExample();
    var once := ApplyAll(host, {0}, ["foo"], AsWritten);
    assert once.text[0] == "foo-x" && once.applied[0] == "foo-x" && once.original[0] == "";
    assert !NeedsCapture(once, 0, AsWritten);
    assert ResolvedName(once, 0, AsWritten) == "foo-x";
  }
}
