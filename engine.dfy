/**
 The label-synchronisation engine of the content script as objects whose
 fields change in place: the page with its channel-name labels, and the
 engine holding the prefix list, the two side tables (content_script.js:4-6)
 and the scheduler variables (lines 50-52). Every method is proved against
 the pure definitions of the modules LabelState, Batching and Mutations.
 */
module LabelSync {
  import opened PrefixTransform
  import opened LabelState
  import opened Batching
  import opened Mutations

  /** A sidebar root element (`.p-channel_sidebar`). */
  type Root = nat

  /** The labels whose text differs between two snapshots of the page. */
  function Changed(before: map<Label, string>, after: map<Label, string>): set<Label> {
    set l | l in before && l in after && before[l] != after[l]
  }

  /** Giving one so far unchanged label the text `s` adds it to the changed
      labels exactly when `s` differs from its first text. */
  lemma ChangedStep(start: map<Label, string>, before: map<Label, string>, l: Label, s: string)
    requires l in start && l in before && before[l] == start[l]
    ensures l !in Changed(start, before)
    ensures Changed(start, before[l := s]) ==
            if s != start[l] then Changed(start, before) + {l} else Changed(start, before)
  {
  }

  /** One turn of hidePrefixes' loop: a label not reconciled yet is, and it
      counts as changed exactly when its text was assigned. */
  lemma HideStep(start: World, done: set<Label>, span: Label, prefixes: seq<string>, reading: Reading,
                mid: World, after: World)
    requires done <= start.text.Keys && span in start.text && span !in done
    requires PassedOver(start, done, prefixes, reading, mid)
    requires span in mid.text && after == ApplyAll(mid, {span}, prefixes, reading)
    ensures PassedOver(start, done + {span}, prefixes, reading, after)
    ensures |Changed(start.text, after.text)| ==
            |Changed(start.text, mid.text)| + if mid.text[span] == after.text[span] then 0 else 1
  {
    assert SameEntry(mid, start, span);
    PassedOverIsApplyAll(mid, {span}, prefixes, reading, after);
    PassStep(start, done, span, prefixes, reading, mid, after);
    ApplyOne(mid, span, prefixes, reading);
    ChangedStep(start.text, mid.text, span, after.text[span]);
  }

  lemma DoneStep(targets: set<Label>, remaining: set<Label>, connected: set<Label>, done: set<Label>, span: Label)
    requires done == (targets - remaining) * connected && span in remaining && remaining <= targets
    ensures span !in done
    ensures (if span in connected then done + {span} else done) == (targets - (remaining - {span})) * connected
  {
  }

  /** The host page: the text of every channel-name label it rendered, the
      labels still in the document (`isConnected`), and the sidebar roots. */
  class Page {
    var text: map<Label, string>
    var connected: set<Label>
    var roots: set<Root>
    /** Assignments to a label's text so far; each one makes the host emit a
        mutation record. */
    ghost var writes: nat

    ghost predicate Valid()
      reads this
    {
      connected <= text.Keys
    }

    constructor ()
      ensures Valid()
      ensures text == map[] && connected == {} && roots == {} && writes == 0
    {
      text := map[];
      connected := {};
      roots := {};
      writes := 0;
    }

    /** `span.textContent = s`. */
    method SetText(l: Label, s: string)
      modifies this`text, this`writes
      ensures text == old(text)[l := s] && writes == old(writes) + 1
    {
      text := text[l := s];
      writes := writes + 1;
    }

    /** The host renders label `l` with text `s` into the document, or
        replaces the text of a label it rendered before. */
    method Insert(l: Label, s: string)
      requires Valid()
      modifies this`text, this`connected
      ensures Valid()
      ensures text == old(text)[l := s] && connected == old(connected) + {l}
    {
      text := text[l := s];
      connected := connected + {l};
    }
  }

  class Engine {
    const page: Page
    /** How the tests of lines 12 and 17 read the tables: `AsWritten` is the
        script as shipped; `Intended` tests for presence of an entry. */
    const reading: Reading
    /** `prefixes` (line 4). */
    var prefixes: seq<string>
    /** `originalNameMap` (line 5). */
    var originalNames: map<Label, string>
    /** `appliedNameMap` (line 6). */
    var appliedNames: map<Label, string>
    /** `pendingSpans` (line 50). */
    var pendingSpans: set<Label>
    /** `scheduleAll` (line 51). */
    var scheduleAll: bool
    /** `rafId !== null` (line 52). */
    var rafPending: bool
    /** The roots the mutation observer currently watches. */
    var observed: set<Root>
    /** Frames requested from the host so far. */
    ghost var framesRequested: nat

    /** The page and the side tables as one value. */
    ghost function View(): World
      reads this, page
    {
      World(page.text, originalNames, appliedNames)
    }

    /** The scheduler variables as one value. */
    ghost function Queue(): Pending
      reads this
    {
      Pending(pendingSpans, scheduleAll, rafPending)
    }

    ghost predicate Valid()
      reads this, page
    {
      && page.Valid()
      && Consistent(View())
      && Served(Queue())
    }

    /** The script at load time, before the first storage read. */
    constructor (page: Page, reading: Reading)
      requires page.Valid()
      ensures Valid() && this.page == page && this.reading == reading
      ensures prefixes == [] && View() == World(page.text, map[], map[])
      ensures Queue() == Idle && observed == {} && framesRequested == 0
    {
      this.page := page;
      this.reading := reading;
      prefixes := [];
      originalNames := map[];
      appliedNames := map[];
      pendingSpans := {};
      scheduleAll := false;
      rafPending := false;
      observed := {};
      framesRequested := 0;
    }

    /** `getOriginalName` (lines 8-18). Under `AsWritten` the tests of lines
        12 and 17 are JavaScript truthiness: a missing entry and "" both fail
        them. */
    method GetOriginalName(span: Label) returns (name: string)
      requires span in page.text
      modifies this`originalNames, this`appliedNames
      ensures View() == Capture(old(View()), span, reading)
      ensures name == ResolvedName(old(View()), span, reading)
    {
      var currentText := page.text[span];
      var lastApplied := Get(appliedNames, span);
      var appliedCounts := lastApplied.Some? && (reading == Intended || lastApplied.value != "");
      if span !in originalNames || (appliedCounts && currentText != lastApplied.value) {
        originalNames := originalNames[span := currentText];
        appliedNames := appliedNames - {span};
      }
      var stored := Get(originalNames, span);
      var storedCounts := stored.Some? && (reading == Intended || stored.value != "");
      name := if storedCounts then stored.value else currentText;
    }

    /** `applyPrefixesToSpan` (lines 29-38): the label shows the transform of
        its original, the applied table records it, and the text is assigned
        only when it differs. */
    method ApplyPrefixesToSpan(span: Label)
      requires Valid() && span in page.text
      modifies this`originalNames, this`appliedNames, page`text, page`writes
      ensures Valid()
      ensures View() == ApplyAll(old(View()), {span}, prefixes, reading)
      ensures page.writes == old(page.writes) + if old(page.text)[span] == page.text[span] then 0 else 1
    {
      ghost var w := View();
      var originalName := GetOriginalName(span);
      ghost var c := View();
      var hiddenName := ComputeHiddenName(originalName, prefixes);
      if page.text[span] != hiddenName {
        page.SetText(span, hiddenName);
      }
      appliedNames := appliedNames[span := hiddenName];
      StepWorldApplies(w, span, prefixes, reading, page.text, originalNames, appliedNames);
    }

    /** `hidePrefixes(spans)` (lines 40-48): every label of the request that
        is in the document, or every label in the document when the request
        names none, is reconciled; one text assignment per label whose text
        changes. */
    method HidePrefixes(spans: Target)
      requires Valid()
      modifies this`originalNames, this`appliedNames, page`text, page`writes
      ensures Valid()
      ensures View() == ApplyAll(old(View()), Reached(spans, page.connected), prefixes, reading)
      ensures page.writes == old(page.writes) + |Changed(old(page.text), page.text)|
    {
      var targets := if spans.AllLabels? then page.connected else spans.labels;
      ghost var connected := page.connected;
      ghost var start := View();
      ghost var done: set<Label> := {};
      NothingChanged(start.text);
      var remaining := targets;
      while remaining != {}
        invariant HideProgress(start, targets, remaining, connected, done, old(page.writes))
        decreases remaining
      {
        var span :| span in remaining;
        if span in page.connected {
          ReconcileOne(span, start, targets, remaining, connected, done, old(page.writes));
          done := done + {span};
        } else {
          SkipOne(span, start, targets, remaining, connected, done, old(page.writes));
        }
        remaining := remaining - {span};
      }
      assert done == Reached(spans, connected);
      PassedOverIsApplyAll(start, done, prefixes, reading, View());
    }

    /** The loop invariant of hidePrefixes: the labels of `targets` already
        taken off `remaining` that are in the document have been reconciled,
        nothing else has changed, and one write was counted per changed
        text. */
    ghost predicate HideProgress(start: World, targets: set<Label>, remaining: set<Label>,
                                 connected: set<Label>, done: set<Label>, base: nat)
      reads this, page
    {
      && Valid()
      && page.connected == connected
      && remaining <= targets
      && done == (targets - remaining) * connected
      && done <= start.text.Keys
      && PassedOver(start, done, prefixes, reading, View())
      && page.writes == base + |Changed(start.text, page.text)|
    }

    /** One turn of hidePrefixes' loop on a label in the document: the pass
        so far is extended by that label, and a write is counted exactly when
        its text changed. */
    method ReconcileOne(span: Label, ghost start: World, ghost targets: set<Label>, ghost remaining: set<Label>,
                        ghost connected: set<Label>, ghost done: set<Label>, ghost base: nat)
      requires HideProgress(start, targets, remaining, connected, done, base)
      requires span in remaining && span in connected
      modifies this`originalNames, this`appliedNames, page`text, page`writes
      ensures HideProgress(start, targets, remaining - {span}, connected, done + {span}, base)
    {
      DoneStep(targets, remaining, connected, done, span);
      ghost var mid := View();
      ApplyPrefixesToSpan(span);
      HideStep(start, done, span, prefixes, reading, mid, View());
    }

    /** One turn of hidePrefixes' loop on a label no longer in the document:
        nothing is done. */
    lemma SkipOne(span: Label, start: World, targets: set<Label>, remaining: set<Label>,
                  connected: set<Label>, done: set<Label>, base: nat)
      requires HideProgress(start, targets, remaining, connected, done, base)
      requires span in remaining && span !in connected
      ensures HideProgress(start, targets, remaining - {span}, connected, done, base)
    {
      DoneStep(targets, remaining, connected, done, span);
    }

    /** `scheduleHide(spans)` (lines 66-80). */
    method ScheduleHide(spans: Target)
      requires Valid()
      modifies this`pendingSpans, this`scheduleAll, this`rafPending, this`framesRequested
      ensures Valid()
      ensures Queue() == Schedule(old(Queue()), spans)
      ensures framesRequested == old(framesRequested) + FramesRequested(old(Queue()), [spans])
    {
      match spans {
        case AllLabels =>
          scheduleAll := true;
        case Only(labels) =>
          pendingSpans := pendingSpans + labels;
      }
      if !rafPending {
        rafPending := true;
        framesRequested := framesRequested + 1;
      }
    }

    /** `flushPending` (lines 54-64), the frame callback: the scheduler is
        reset first, then the pending labels still in the document, or all
        labels in the document, are reconciled. */
    method FlushPending()
      requires Valid()
      modifies this`pendingSpans, this`scheduleAll, this`rafPending
      modifies this`originalNames, this`appliedNames, page`text, page`writes
      ensures Valid()
      ensures Queue() == Idle
      ensures View() == ApplyAll(old(View()), FlushTargets(old(Queue()), page.connected), prefixes, reading)
      ensures page.writes == old(page.writes) + |Changed(old(page.text), page.text)|
    {
      ghost var queued := Queue();
      var spansToProcess := if scheduleAll then AllLabels else Only(pendingSpans * page.connected);
      assert Reached(spansToProcess, page.connected) == FlushTargets(queued, page.connected);
      pendingSpans := {};
      scheduleAll := false;
      rafPending := false;
      HidePrefixes(spansToProcess);
    }

    /** The storage callback of `loadPrefixesAndRun` (lines 83-90): `stored`
        is the stored `prefixes` value when it is an array, and None when it
        is missing or not an array. */
    method LoadPrefixes(stored: Option<seq<string>>)
      requires Valid()
      modifies this`prefixes, this`pendingSpans, this`scheduleAll, this`rafPending, this`framesRequested
      ensures Valid()
      ensures prefixes == if stored.Some? then stored.value else []
      ensures Queue() == Schedule(old(Queue()), AllLabels)
      ensures framesRequested == old(framesRequested) + FramesRequested(old(Queue()), [AllLabels])
    {
      if stored.Some? {
        prefixes := stored.value;
      } else {
        prefixes := [];
      }
      ScheduleHide(AllLabels);
    }

    /** `refreshObserverTargets` (lines 124-137): the observer is detached,
        then attached to every sidebar root; the result says whether any
        root exists. */
    method RefreshObserverTargets() returns (attached: bool)
      modifies this`observed
      ensures attached <==> page.roots != {}
      ensures observed == page.roots
    {
      observed := {};
      if page.roots == {} {
        return false;
      }
      observed := page.roots;
      attached := true;
    }

    /** The body of the callback for one record (lines 143-158): labels in
        added subtrees and the owner of changed text join `affected`, and
        removed labels lose both table entries. */
    method ObserveRecord(mutation: Mutation, affected: set<Label>) returns (affectedAfter: set<Label>)
      modifies this`originalNames, this`appliedNames
      ensures affectedAfter == affected + AffectedBy(mutation)
      ensures originalNames == old(originalNames) - ForgottenBy(mutation)
      ensures appliedNames == old(appliedNames) - ForgottenBy(mutation)
    {
      affectedAfter := affected;
      match mutation {
        case ChildList(added, removed) =>
          var j := 0;
          while j < |added|
            invariant 0 <= j <= |added|
            invariant affectedAfter == affected + AddedLabels(added[..j])
          {
            affectedAfter := affectedAfter + added[j];
            assert added[..j + 1][..j] == added[..j];
            j := j + 1;
          }
          assert added[..j] == added;
          var k := 0;
          while k < |removed|
            invariant 0 <= k <= |removed|
            invariant originalNames == old(originalNames) - RemovedLabels(removed[..k])
            invariant appliedNames == old(appliedNames) - RemovedLabels(removed[..k])
          {
            if removed[k].RemovedLabel? {
              originalNames := originalNames - {removed[k].id};
              appliedNames := appliedNames - {removed[k].id};
            }
            assert removed[..k + 1][..k] == removed[..k];
            k := k + 1;
          }
          assert removed[..k] == removed;
        case CharacterData(owner) =>
          if owner.Some? {
            affectedAfter := affectedAfter + {owner.value};
          }
      }
    }

    /** `mutations.forEach` of the callback (lines 142-159): the labels the
        batch names, with every removed label's entries deleted. */
    method ObserveBatch(mutations: seq<Mutation>) returns (affectedSpans: set<Label>)
      modifies this`originalNames, this`appliedNames
      ensures affectedSpans == Affected(mutations)
      ensures originalNames == old(originalNames) - Forgotten(mutations)
      ensures appliedNames == old(appliedNames) - Forgotten(mutations)
    {
      affectedSpans := {};
      var i := 0;
      while i < |mutations|
        invariant 0 <= i <= |mutations|
        invariant affectedSpans == Affected(mutations[..i])
        invariant originalNames == old(originalNames) - Forgotten(mutations[..i])
        invariant appliedNames == old(appliedNames) - Forgotten(mutations[..i])
      {
        affectedSpans := ObserveRecord(mutations[i], affectedSpans);
        assert mutations[..i + 1][..i] == mutations[..i];
        i := i + 1;
      }
      assert mutations[..i] == mutations;
    }

    /** The mutation observer callback (lines 139-168): removed labels lose
        their table entries, the affected labels (or all labels, when the
        batch names none) are scheduled, and the observer is re-attached. */
    method OnMutations(mutations: seq<Mutation>) returns (attached: bool)
      requires Valid()
      modifies this`originalNames, this`appliedNames, this`observed
      modifies this`pendingSpans, this`scheduleAll, this`rafPending, this`framesRequested
      ensures Valid()
      ensures View() == Forget(old(View()), Forgotten(mutations))
      ensures Queue() == Schedule(old(Queue()), Classify(mutations))
      ensures framesRequested == old(framesRequested) + FramesRequested(old(Queue()), [Classify(mutations)])
      ensures attached <==> page.roots != {}
      ensures observed == page.roots
    {
      var affectedSpans := ObserveBatch(mutations);
      assert View() == Forget(old(View()), Forgotten(mutations));
      ForgetConsistent(old(View()), Forgotten(mutations));
      if affectedSpans != {} {
        ScheduleHide(Only(affectedSpans));
      } else {
        ScheduleHide(AllLabels);
      }
      attached := RefreshObserverTargets();
    }
  }

  /** The feedback loop of the engine's own writes ends: after a recompute-
      all flush, the records caused by its text assignments forget nothing
      and schedule a recompute-all flush that leaves page and tables as they
      are, so it assigns no text and causes no further record. Under the
      code as written this needs every label either to have a non-empty
      stored original or to be empty. */
  lemma OwnWritesSettle(w: World, connected: set<Label>, prefixes: seq<string>, reading: Reading,
                         batch: seq<Mutation>)
    requires connected <= w.text.Keys
    requires reading == Intended ||
             forall l :: l in connected ==> StoredOriginal(w, l, reading) != "" || w.text[l] == ""
    requires forall i :: 0 <= i < |batch| ==> IsTextReplacement(batch[i])
    ensures var once := ApplyAll(w, connected, prefixes, reading);
            var next := FlushTargets(Schedule(Idle, Classify(batch)), connected);
            && Forget(once, Forgotten(batch)) == once
            && ApplyAll(once, next, prefixes, reading) == once
            && Changed(once.text, ApplyAll(once, next, prefixes, reading).text) == {}
  {
    var once := ApplyAll(w, connected, prefixes, reading);
    OwnWritesRecomputeAll(batch);
    IdempotentPass(w, connected, prefixes, reading);
    RecomputeAllReachesAll(connected);
    ForgetNothing(once);
    NothingChanged(once.text);
  }

  /** A recompute-all request on an idle scheduler flushes every connected
      label. */
  lemma RecomputeAllReachesAll(connected: set<Label>)
    ensures FlushTargets(Schedule(Idle, AllLabels), connected) == connected
  {
  }

  /** Forgetting no label keeps the tables. */
  lemma ForgetNothing(w: World)
    ensures Forget(w, {}) == w
  {
    assert w.original - {} == w.original && w.applied - {} == w.applied;
  }

  /** The label texts and tables after one label's reconciliation are the
      pass over that label alone, with the same labels rendered, and keep
      the tables consistent. */
  lemma StepWorldApplies(w: World, l: Label, prefixes: seq<string>, reading: Reading,
                         text: map<Label, string>, original: map<Label, string>, applied: map<Label, string>)
    requires l in w.text && Consistent(w)
    requires text == w.text[l := Shown(w, l, prefixes, reading)]
    requires original == Capture(w, l, reading).original
    requires applied == Capture(w, l, reading).applied[l := Shown(w, l, prefixes, reading)]
    ensures World(text, original, applied) == ApplyAll(w, {l}, prefixes, reading)
    ensures Consistent(World(text, original, applied)) && text.Keys == w.text.Keys
  {
    ApplyOne(w, l, prefixes, reading);
    ApplyAllConsistent(w, {l}, prefixes, reading);
  }

  /** Comparing texts with themselves finds no change. */
  lemma NothingChanged(text: map<Label, string>)
    ensures Changed(text, text) == {}
  {
  }

  /** Map facts about a map whose only possible key is label 0. */
  lemma OneEntryUpdates(m: map<Label, string>, t: string, shown: string)
    requires m.Keys <= {0}
    ensures m[0 := t] == map[0 := t]
    ensures (m - {0})[0 := shown] == map[0 := shown]
  {
  }

  /** The first pass over a label the tables do not know: under either
      reading its text becomes the original and it shows that text with its
      prefix hidden. */
  lemma FirstPass(t: string, prefixes: seq<string>, reading: Reading)
    ensures var shown := ComputeHiddenName(t, prefixes);
            ApplyAll(World(map[0 := t], map[], map[]), {0}, prefixes, reading) ==
            World(map[0 := shown], map[0 := t], map[0 := shown])
  {
    var w := World(map[0 := t], map[], map[]);
    ApplyOne(w, 0, prefixes, reading);
    var shown := ComputeHiddenName(t, prefixes);
    FirstCapture(t, shown, reading);
    assert Shown(w, 0, prefixes, reading) == shown;
    assert w.text[0 := shown] == map[0 := shown];
  }

  /** The capture of line 12 on a label the tables do not know: its text
      becomes the original, and is the name resolved. */
  lemma FirstCapture(t: string, shown: string, reading: Reading)
    ensures var c := Capture(World(map[0 := t], map[], map[]), 0, reading);
            && c.original == map[0 := t]
            && c.applied[0 := shown] == map[0 := shown]
            && ResolvedName(World(map[0 := t], map[], map[]), 0, reading) == t
  {
    var w := World(map[0 := t], map[], map[]);
    var c := Capture(w, 0, reading);
    assert NeedsCapture(w, 0, reading);
    assert c.original == w.original[0 := t] && c.applied == w.applied - {0};
    OneEntryUpdates(w.original, t, shown);
  }

  /** The pass after the host fills in a label stored as "" with a
      non-empty text: the script as written keeps the empty original, the
      reading by presence captures the new text; both show the text with
      its prefix hidden. */
  lemma FilledPass(t: string, prefixes: seq<string>, reading: Reading)
    requires t != ""
    ensures var shown := ComputeHiddenName(t, prefixes);
            ApplyAll(World(map[0 := t], map[0 := ""], map[0 := ""]), {0}, prefixes, reading) ==
            World(map[0 := shown], map[0 := if reading == AsWritten then "" else t], map[0 := shown])
  {
    var w := World(map[0 := t], map[0 := ""], map[0 := ""]);
    ApplyOne(w, 0, prefixes, reading);
    var shown := ComputeHiddenName(t, prefixes);
    FilledCapture(t, shown, reading);
    assert Shown(w, 0, prefixes, reading) == shown;
    assert w.text[0 := shown] == map[0 := shown];
  }

  /** The capture of line 12 on the filled-in label: as written nothing is
      recaptured; read by presence the new text becomes the original. The
      name resolved is the new text either way. */
  lemma FilledCapture(t: string, shown: string, reading: Reading)
    requires t != ""
    ensures var c := Capture(World(map[0 := t], map[0 := ""], map[0 := ""]), 0, reading);
            && c.original == map[0 := if reading == AsWritten then "" else t]
            && c.applied[0 := shown] == map[0 := shown]
            && ResolvedName(World(map[0 := t], map[0 := ""], map[0 := ""]), 0, reading) == t
  {
    var w := World(map[0 := t], map[0 := ""], map[0 := ""]);
    var c := Capture(w, 0, reading);
    if reading == AsWritten {
      assert !NeedsCapture(w, 0, reading);
      assert c == w;
    } else {
      assert NeedsCapture(w, 0, reading);
      assert c.original == w.original[0 := t] && c.applied == w.applied - {0};
      OneEntryUpdates(w.original, t, shown);
    }
  }

  /** A pass with no prefixes over a label that shows what the engine last
      wrote: it shows the stored original when that counts as there, and
      keeps its text otherwise. */
  lemma ClearedPass(s: string, o: string, reading: Reading)
    ensures ApplyAll(World(map[0 := s], map[0 := o], map[0 := s]), {0}, [], reading).text[0] ==
            if Holds(Some(o), reading) then o else s
  {
    var w := World(map[0 := s], map[0 := o], map[0 := s]);
    ApplyOne(w, 0, [], reading);
    assert !NeedsCapture(w, 0, reading);
    assert Capture(w, 0, reading) == w;
  }

  /** The host renders one label with text `t`, and the stored prefix list
      `["team"]` is read at load time. */
  method LoadOverLabel(t: string, reading: Reading) returns (engine: Engine)
    ensures fresh(engine) && fresh(engine.page) && engine.Valid() && engine.reading == reading
    ensures engine.prefixes == ["team"] && engine.page.connected == {0}
    ensures FlushTargets(engine.Queue(), engine.page.connected) == {0}
    ensures engine.View() == World(map[0 := t], map[], map[])
  {
    var page := new Page();
    page.Insert(0, t);
    engine := new Engine(page, reading);
    engine.LoadPrefixes(Some(["team"]));
  }

  /** The first frame after loading: the label shows its text with the
      prefix hidden, and the text is stored as its original. */
  method RenderLabel(t: string, reading: Reading) returns (engine: Engine)
    ensures fresh(engine) && fresh(engine.page) && engine.Valid() && engine.reading == reading
    ensures engine.prefixes == ["team"] && engine.Queue() == Idle && engine.page.connected == {0}
    ensures var shown := ComputeHiddenName(t, ["team"]);
            engine.View() == World(map[0 := shown], map[0 := t], map[0 := shown])
  {
    engine := LoadOverLabel(t, reading);
    engine.FlushPending();
    FirstPass(t, ["team"], reading);
  }

  /** The prefix list is cleared in storage and the next frame runs. */
  method ClearPrefixes(engine: Engine, ghost s: string, ghost o: string)
    requires engine.Valid() && engine.Queue() == Idle && engine.page.connected == {0}
    requires engine.View() == World(map[0 := s], map[0 := o], map[0 := s])
    modifies engine`prefixes, engine`pendingSpans, engine`scheduleAll, engine`rafPending, engine`framesRequested
    modifies engine`originalNames, engine`appliedNames, engine.page`text, engine.page`writes
    ensures 0 in engine.page.text
    ensures engine.page.text[0] == if Holds(Some(o), engine.reading) then o else s
  {
    engine.LoadPrefixes(Some([]));
    assert FlushTargets(engine.Queue(), engine.page.connected) == {0};
    engine.FlushPending();
    ClearedPass(s, o, engine.reading);
  }

  /** The scenario of hiding "team" from "team-design" and restoring it by
      clearing the prefix list, run on the objects. */
  method TeamDesignScenario() returns (hidden: string, restored: string)
    ensures hidden == "design" && restored == "team-design"
  {
    var engine := RenderLabel("team-design", AsWritten);
    TeamDesignExample();
    hidden := engine.page.text[0];
    ClearPrefixes(engine, "design", "team-design");
    restored := engine.page.text[0];
  }

  /** The host fills the label in with "team-design": its text node changes,
      and the observer callback receives that one `characterData` record. */
  method FillLabel(engine: Engine)
    requires engine.Valid() && engine.Queue() == Idle && engine.page.connected == {0}
    requires engine.View() == World(map[0 := ""], map[0 := ""], map[0 := ""])
    modifies engine.page`text, engine.page`connected
    modifies engine`originalNames, engine`appliedNames, engine`observed
    modifies engine`pendingSpans, engine`scheduleAll, engine`rafPending, engine`framesRequested
    ensures engine.Valid() && engine.page.connected == {0}
    ensures FlushTargets(engine.Queue(), engine.page.connected) == {0}
    ensures engine.View() == World(map[0 := "team-design"], map[0 := ""], map[0 := ""])
  {
    engine.page.Insert(0, "team-design");
    ghost var filled := engine.View();
    var batch := [CharacterData(Some(0))];
    OneTextChange(batch);
    var attached := engine.OnMutations(batch);
    ForgetNothing(filled);
  }

  /** A batch holding one `characterData` record of a label forgets nothing
      and asks for that label alone. */
  lemma OneTextChange(batch: seq<Mutation>)
    requires batch == [CharacterData(Some(0))]
    ensures Forgotten(batch) == {} && Classify(batch) == Only({0})
  {
    assert batch[..|batch| - 1] == [];
    assert Affected(batch) == {0};
    assert Forgotten(batch) == {};
  }

  /** The engine hides the prefix of the filled-in label on its next frame. */
  method HideFilledLabel(engine: Engine)
    requires engine.Valid() && engine.prefixes == ["team"] && engine.page.connected == {0}
    requires FlushTargets(engine.Queue(), engine.page.connected) == {0}
    requires engine.View() == World(map[0 := "team-design"], map[0 := ""], map[0 := ""])
    modifies engine`pendingSpans, engine`scheduleAll, engine`rafPending
    modifies engine`originalNames, engine`appliedNames, engine.page`text, engine.page`writes
    ensures engine.Valid() && engine.Queue() == Idle
    ensures engine.View() ==
            World(map[0 := "design"], map[0 := if engine.reading == AsWritten then "" else "team-design"], map[0 := "design"])
  {
    engine.FlushPending();
    FilledPass("team-design", ["team"], engine.reading);
    TeamDesignExample();
  }

  /** The history of the findings run on the objects: a label first rendered
      empty, filled in by the host with "team-design", hidden with prefix
      "team", and reconfigured to no prefixes. The script as written leaves
      "design"; the reading by presence restores "team-design". */
  method EmptyFirstTextScenario(reading: Reading) returns (hidden: string, restored: string)
    ensures hidden == "design"
    ensures restored == if reading == AsWritten then "design" else "team-design"
  {
    var engine := RenderLabel("", reading);
    assert ComputeHiddenName("", ["team"]) == "";
    FillLabel(engine);
    HideFilledLabel(engine);
    hidden := engine.page.text[0];
    ClearPrefixes(engine, "design", if reading == AsWritten then "" else "team-design");
    restored := engine.page.text[0];
  }
}
