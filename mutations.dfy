/**
 The classification done by the content script's mutation observer callback
 (content_script.js:139-165): a batch of mutation records becomes a set of
 labels whose state is forgotten and a single scheduler request.
 */
module Mutations {
  import opened LabelState

  /** A node the host removed from the sidebar: a channel-name element, or
      any other node (a text node, a container). */
  datatype RemovedNode = RemovedLabel(id: Label) | RemovedOther

  /** One mutation record. For `childList`, each added node is given by the
      channel-name labels of its subtree, as collectChannelNameElements finds
      them (lines 99-116); a text node adds none. For `characterData`, the
      owner is the parent element of the changed text node when that element
      is a channel-name label (lines 154-157). */
  datatype Mutation =
    | ChildList(added: seq<set<Label>>, removed: seq<RemovedNode>)
    | CharacterData(owner: Option<Label>)

  /** The labels found in a list of added nodes (line 144). */
  function AddedLabels(added: seq<set<Label>>): set<Label>
    decreases |added|
  {
    if |added| == 0 then {} else AddedLabels(added[..|added| - 1]) + added[|added| - 1]
  }

  /** The removed nodes that are channel-name labels (line 146). */
  function RemovedLabels(removed: seq<RemovedNode>): set<Label>
    decreases |removed|
  {
    if |removed| == 0 then {}
    else
      var last := removed[|removed| - 1];
      RemovedLabels(removed[..|removed| - 1]) + if last.RemovedLabel? then {last.id} else {}
  }

  /** The labels one record asks to recompute. */
  function AffectedBy(m: Mutation): set<Label> {
    match m
    case ChildList(added, _) => AddedLabels(added)
    case CharacterData(owner) => if owner.Some? then {owner.value} else {}
  }

  /** The labels one record removes from the tables. */
  function ForgottenBy(m: Mutation): set<Label> {
    match m
    case ChildList(_, removed) => RemovedLabels(removed)
    case CharacterData(_) => {}
  }

  /** `affectedSpans` after the batch (lines 140-159). */
  function Affected(batch: seq<Mutation>): set<Label>
    decreases |batch|
  {
    if |batch| == 0 then {} else Affected(batch[..|batch| - 1]) + AffectedBy(batch[|batch| - 1])
  }

  /** Every label whose state the batch deletes. */
  function Forgotten(batch: seq<Mutation>): set<Label>
    decreases |batch|
  {
    if |batch| == 0 then {} else Forgotten(batch[..|batch| - 1]) + ForgottenBy(batch[|batch| - 1])
  }

  /** The request the callback makes (lines 161-165). */
  function Classify(batch: seq<Mutation>): Target {
    if Affected(batch) == {} then AllLabels else Only(Affected(batch))
  }

  /** A label is collected exactly when some added node holds it. */
  lemma {:induction false} AddedLabelsMembers(added: seq<set<Label>>, l: Label)
    ensures l in AddedLabels(added) <==> exists i :: 0 <= i < |added| && l in added[i]
    decreases |added|
  {
    if |added| > 0 {
      var front := added[..|added| - 1];
      AddedLabelsMembers(front, l);
      if l in AddedLabels(front) {
        var i :| 0 <= i < |front| && l in front[i];
        assert added[i] == front[i];
      }
      if exists i :: 0 <= i < |added| && l in added[i] {
        var i :| 0 <= i < |added| && l in added[i];
        if i < |added| - 1 {
          assert front[i] == added[i];
        }
      }
    }
  }

  /** A label is forgotten by a record exactly when it is among the removed
      nodes. */
  lemma {:induction false} RemovedLabelsMembers(removed: seq<RemovedNode>, l: Label)
    ensures l in RemovedLabels(removed) <==> RemovedLabel(l) in removed
    decreases |removed|
  {
    if |removed| > 0 {
      var front := removed[..|removed| - 1];
      RemovedLabelsMembers(front, l);
      assert removed == front + [removed[|removed| - 1]];
    }
  }

  /** The affected labels are exactly those some record of the batch names. */
  lemma {:induction false} AffectedMembers(batch: seq<Mutation>, l: Label)
    ensures l in Affected(batch) <==> exists i :: 0 <= i < |batch| && l in AffectedBy(batch[i])
    decreases |batch|
  {
    if |batch| > 0 {
      var front := batch[..|batch| - 1];
      AffectedMembers(front, l);
      if l in Affected(front) {
        var i :| 0 <= i < |front| && l in AffectedBy(front[i]);
        assert batch[i] == front[i];
      }
      if exists i :: 0 <= i < |batch| && l in AffectedBy(batch[i]) {
        var i :| 0 <= i < |batch| && l in AffectedBy(batch[i]);
        if i < |batch| - 1 {
          assert front[i] == batch[i];
        }
      }
    }
  }

  /** The forgotten labels are exactly those some record of the batch
      removes. */
  lemma {:induction false} ForgottenMembers(batch: seq<Mutation>, l: Label)
    ensures l in Forgotten(batch) <==> exists i :: 0 <= i < |batch| && l in ForgottenBy(batch[i])
    decreases |batch|
  {
    if |batch| > 0 {
      var front := batch[..|batch| - 1];
      ForgottenMembers(front, l);
      if l in Forgotten(front) {
        var i :| 0 <= i < |front| && l in ForgottenBy(front[i]);
        assert batch[i] == front[i];
      }
      if exists i :: 0 <= i < |batch| && l in ForgottenBy(batch[i]) {
        var i :| 0 <= i < |batch| && l in ForgottenBy(batch[i]);
        if i < |batch| - 1 {
          assert front[i] == batch[i];
        }
      }
    }
  }

  /** The callback asks for recompute-all exactly when no record of the batch
      names a label, and otherwise for exactly the named labels. */
  lemma ClassifyMeans(batch: seq<Mutation>)
    ensures Classify(batch) == AllLabels <==> forall i :: 0 <= i < |batch| ==> AffectedBy(batch[i]) == {}
    ensures Classify(batch).Only? ==>
              forall l :: l in Classify(batch).labels <==> exists i :: 0 <= i < |batch| && l in AffectedBy(batch[i])
  {
    forall l ensures l in Affected(batch) <==> exists i :: 0 <= i < |batch| && l in AffectedBy(batch[i]) {
      AffectedMembers(batch, l);
    }
    if Affected(batch) != {} {
      var l :| l in Affected(batch);
      var i :| 0 <= i < |batch| && l in AffectedBy(batch[i]);
      assert AffectedBy(batch[i]) != {};
    }
  }

  /** The record the host emits when the engine assigns a label's text: the
      label's old text node leaves and a new one arrives, neither of them an
      element. */
  predicate IsTextReplacement(m: Mutation) {
    && m.ChildList?
    && (forall i :: 0 <= i < |m.added| ==> m.added[i] == {})
    && (forall i :: 0 <= i < |m.removed| ==> m.removed[i] == RemovedOther)
  }

  /** A batch made only of the engine's own text assignments forgets nothing
      and asks for a recompute of all labels. */
  lemma OwnWritesRecomputeAll(batch: seq<Mutation>)
    requires forall i :: 0 <= i < |batch| ==> IsTextReplacement(batch[i])
    ensures Forgotten(batch) == {}
    ensures Classify(batch) == AllLabels
  {
    forall i | 0 <= i < |batch| ensures AffectedBy(batch[i]) == {} && ForgottenBy(batch[i]) == {} {
      var m := batch[i];
      forall l ensures l !in AddedLabels(m.added) && l !in RemovedLabels(m.removed) {
        AddedLabelsMembers(m.added, l);
        RemovedLabelsMembers(m.removed, l);
      }
    }
    forall l ensures l !in Forgotten(batch) {
      ForgottenMembers(batch, l);
    }
    ClassifyMeans(batch);
  }
}
