/**
 The batching scheduler of the content script (content_script.js:50-80):
 requests arriving before the next animation frame are gathered into a
 pending set of labels or a "recompute everything" flag, and at most one frame
 callback is outstanding at a time.
 */
module Batching {
  import opened LabelState

  /** The scheduler's variables: `pendingSpans`, `scheduleAll`, and whether a
      frame callback is outstanding (`rafId !== null`). */
  datatype Pending = Pending(labels: set<Label>, all: bool, framePending: bool)

  /** The state at load time and after every flush (lines 50-52, 59-61). */
  const Idle := Pending({}, false, false)

  /** No request waits without a frame callback that will serve it. */
  predicate Served(p: Pending) {
    (p.labels != {} || p.all) ==> p.framePending
  }

  /** `scheduleHide(spans)` (lines 66-80): labels join the pending set, no
      argument sets the flag, and a frame is requested unless one is
      outstanding. */
  function Schedule(p: Pending, request: Target): (q: Pending)
    ensures Served(q)
  {
    match request
    case AllLabels => p.(all := true, framePending := true)
    case Only(labels) => p.(labels := p.labels + labels, framePending := true)
  }

  /** Whether `scheduleHide` in state `p` calls `requestAnimationFrame`
      (line 77). */
  predicate RequestsFrame(p: Pending) {
    !p.framePending
  }

  /** The scheduler after a window of requests, in order. */
  function ScheduleEach(p: Pending, requests: seq<Target>): Pending
    decreases |requests|
  {
    if |requests| == 0 then p else ScheduleEach(Schedule(p, requests[0]), requests[1..])
  }

  /** How many frames a window of requests asks the host for. */
  function FramesRequested(p: Pending, requests: seq<Target>): nat
    decreases |requests|
  {
    if |requests| == 0 then 0
    else (if RequestsFrame(p) then 1 else 0) + FramesRequested(Schedule(p, requests[0]), requests[1..])
  }

  /** The labels named by the targeted requests of a window. */
  function RequestedLabels(requests: seq<Target>): (labels: set<Label>)
    ensures forall i :: 0 <= i < |requests| && requests[i].Only? ==> requests[i].labels <= labels
    ensures forall l :: l in labels ==>
              exists i :: 0 <= i < |requests| && requests[i].Only? && l in requests[i].labels
    decreases |requests|
  {
    if |requests| == 0 then {}
    else
      var rest := RequestedLabels(requests[1..]);
      var first := if requests[0].Only? then requests[0].labels else {};
      assert forall l :: l in rest ==>
               exists i :: 1 <= i < |requests| && requests[i].Only? && l in requests[i].labels by {
        forall l | l in rest
          ensures exists i :: 1 <= i < |requests| && requests[i].Only? && l in requests[i].labels
        {
          var i :| 0 <= i < |requests[1..]| && requests[1..][i].Only? && l in requests[1..][i].labels;
          assert requests[i + 1] == requests[1..][i];
        }
      }
      first + rest
  }

  /** The labels flushPending reconciles (lines 55-57 with hidePrefixes'
      lines 41 and 44): all labels in the document when the flag is set,
      otherwise the pending labels still in the document. */
  function FlushTargets(p: Pending, connected: set<Label>): (reached: set<Label>)
    ensures reached <= connected
    ensures p.all ==> reached == connected
    ensures !p.all ==> reached <= p.labels
  {
    Reached(if p.all then AllLabels else Only(p.labels), connected)
  }

  /** However many requests a window holds, at most one frame is requested,
      and none when a frame is already outstanding. */
  lemma {:induction false} OneFramePerWindow(p: Pending, requests: seq<Target>)
    ensures FramesRequested(p, requests) == if p.framePending || |requests| == 0 then 0 else 1
    decreases |requests|
  {
    if |requests| > 0 {
      OneFramePerWindow(Schedule(p, requests[0]), requests[1..]);
    }
  }

  /** A window adds exactly the requested labels, sets the flag exactly when
      some request had no argument, and leaves a frame outstanding whenever
      it held a request. */
  lemma {:induction false} WindowAccumulates(p: Pending, requests: seq<Target>)
    ensures var q := ScheduleEach(p, requests);
            && q.labels == p.labels + RequestedLabels(requests)
            && q.all == (p.all || AllLabels in requests)
            && q.framePending == (p.framePending || |requests| > 0)
    decreases |requests|
  {
    if |requests| > 0 {
      WindowAccumulates(Schedule(p, requests[0]), requests[1..]);
      assert requests == [requests[0]] + requests[1..];
    }
  }

  /** A recompute-all request subsumes every targeted request of its window:
      the flush reconciles every label in the document. */
  lemma RecomputeAllSubsumes(p: Pending, requests: seq<Target>, connected: set<Label>)
    requires AllLabels in requests
    ensures FlushTargets(ScheduleEach(p, requests), connected) == connected
  {
    WindowAccumulates(p, requests);
  }

  /** A window of targeted requests only reconciles the requested labels
      that are still in the document. */
  lemma TargetedWindow(p: Pending, requests: seq<Target>, connected: set<Label>)
    requires !p.all && AllLabels !in requests
    ensures FlushTargets(ScheduleEach(p, requests), connected) ==
            (p.labels + RequestedLabels(requests)) * connected
  {
    WindowAccumulates(p, requests);
  }
}
