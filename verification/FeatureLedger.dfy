/** The roadmap of tcfactory/feature_ledger.py and every way in which the controller of
    tcfactory/autopilot.py changes it: queue sync, readiness, dispatch, re-specification and recovery. */
module FeatureLedger {
  import opened Prelude
  import opened Text
  import opened Autopilot

  type Tasks = seq<FeatureItem>

  // ----- Readiness --------------------------------------------------------------------------------------

  function PassedIds(tasks: Tasks): set<string> {
    set i | 0 <= i < |tasks| && tasks[i].status == passed :: tasks[i].taskId
  }

  predicate DependenciesMet(passedIds: set<string>, item: FeatureItem) {
    forall i :: 0 <= i < |item.dependsOn| ==> item.dependsOn[i] in passedIds
  }

  function RefreshItem(passedIds: set<string>, item: FeatureItem): FeatureItem {
    if item.terminalBlocked then item
    else if item.status in {passed, deferred, external_wait, running, paused, failed, respec_required} then item
    else if DependenciesMet(passedIds, item) then
      if item.status == blocked then
        item.(status := if item.packetPath.Some? then packet_approved else ready)
      else item
    else if item.status == ready then item.(status := blocked)
    else item
  }

  function Refresh(tasks: Tasks): Tasks {
    seq(|tasks|, i requires 0 <= i < |tasks| => RefreshItem(PassedIds(tasks), tasks[i]))
  }

  /** A second refresh changes nothing: readiness is settled after one pass. */
  lemma RefreshIsIdempotent(tasks: Tasks)
    ensures Refresh(Refresh(tasks)) == Refresh(tasks)
  {
    var once := Refresh(tasks);
    assert PassedIds(once) == PassedIds(tasks) by {
      forall i | 0 <= i < |tasks| ensures once[i].taskId == tasks[i].taskId && (once[i].status == passed <==> tasks[i].status == passed) {
      }
      forall id ensures id in PassedIds(once) <==> id in PassedIds(tasks) {
      }
    }
  }

  /** Every dependency is the identifier of a passed task. */
  ghost predicate AllPassed(tasks: Tasks, item: FeatureItem) {
    forall id :: id in item.dependsOn ==> exists j :: 0 <= j < |tasks| && tasks[j].taskId == id && tasks[j].status == passed
  }

  lemma MetExactly(tasks: Tasks, item: FeatureItem)
    ensures DependenciesMet(PassedIds(tasks), item) <==> AllPassed(tasks, item)
  {
    if DependenciesMet(PassedIds(tasks), item) {
      forall id | id in item.dependsOn
        ensures exists j :: 0 <= j < |tasks| && tasks[j].taskId == id && tasks[j].status == passed
      {
        assert id in PassedIds(tasks);
      }
    }
    if AllPassed(tasks, item) {
      forall i | 0 <= i < |item.dependsOn| ensures item.dependsOn[i] in PassedIds(tasks) {
        assert item.dependsOn[i] in item.dependsOn;
      }
    }
  }

  /** What readiness does to task `i`: a blocked task is released exactly when its dependencies have all passed,
      as approved if it has a packet; a ready one is blocked exactly when they have not; terminally blocked
      tasks and every other status stay, and nothing but the status changes. */
  ghost predicate Settled(before: Tasks, after: Tasks, i: nat)
    requires i < |before| == |after|
  {
    var item := before[i];
    && after[i] == item.(status := after[i].status)
    && (item.terminalBlocked || item.status !in {blocked, ready} ==> after[i].status == item.status)
    && (!item.terminalBlocked && item.status == blocked ==>
          after[i].status == if !AllPassed(before, item) then blocked else if item.packetPath.Some? then packet_approved else ready)
    && (!item.terminalBlocked && item.status == ready ==> after[i].status == if AllPassed(before, item) then ready else blocked)
  }

  lemma RefreshSettles(tasks: Tasks)
    ensures |Refresh(tasks)| == |tasks|
    ensures forall i :: 0 <= i < |tasks| ==> Settled(tasks, Refresh(tasks), i)
  {
    forall i | 0 <= i < |tasks| ensures Settled(tasks, Refresh(tasks), i) {
      MetExactly(tasks, tasks[i]);
    }
  }

  lemma SettledKeepsPassed(before: Tasks, after: Tasks, item: FeatureItem)
    requires |before| == |after| && forall i :: 0 <= i < |before| ==> Settled(before, after, i)
    ensures AllPassed(before, item) <==> AllPassed(after, item)
  {
    assert forall j :: 0 <= j < |before| ==> after[j].taskId == before[j].taskId && (after[j].status == passed <==> before[j].status == passed) by {
      forall j | 0 <= j < |before|
        ensures after[j].taskId == before[j].taskId && (after[j].status == passed <==> before[j].status == passed)
      {
        assert Settled(before, after, j);
      }
    }
  }

  /** After a refresh, a task that is not terminally blocked is ready only if every dependency has passed, and
      blocked only if some dependency has not. */
  lemma ReadyHasPassedDependencies(tasks: Tasks, i: nat)
    requires i < |tasks| && !tasks[i].terminalBlocked
    ensures |Refresh(tasks)| == |tasks|
    ensures Refresh(tasks)[i].status == ready ==> AllPassed(Refresh(tasks), Refresh(tasks)[i])
    ensures Refresh(tasks)[i].status == blocked ==> !AllPassed(Refresh(tasks), Refresh(tasks)[i])
  {
    RefreshSettles(tasks);
    assert Settled(tasks, Refresh(tasks), i);
    SettledKeepsPassed(tasks, Refresh(tasks), tasks[i]);
  }

  predicate Dispatchable(item: FeatureItem) {
    item.automatable && item.status in {ready, packet_approved}
  }

  // ----- Queue sync -------------------------------------------------------------------------------------

  const EXTERNAL_EVIDENCE_MARKERS: seq<string> := ["external value evidence is required", "external_evidence_required"]

  /** The queue directories; `blocked` maps a task to its error text. */
  datatype Queue = Queue(
    done: set<string>, running: set<string>, paused: set<string>, failed: set<string>,
    blocked: map<string, string>, pending: set<string>)

  function SyncItem(q: Queue, item: FeatureItem): FeatureItem {
    if item.terminalBlocked then item
    else if item.taskId in q.done then item.(status := passed)
    else if item.taskId in q.running then item.(status := running)
    else if item.taskId in q.paused then item.(status := paused)
    else if item.taskId in q.failed then item.(status := respec_required)
    else if item.taskId in q.blocked then
      item.(status := if ContainsAny(Lower(q.blocked[item.taskId]), EXTERNAL_EVIDENCE_MARKERS)
                      then external_wait else respec_required)
    else if item.taskId in q.pending then item.(status := queued)
    else if item.packetPath.Some? && item.status !in {passed, external_wait, deferred} then
      item.(status := packet_approved)
    else item
  }

  function SyncItems(q: Queue, tasks: Tasks): Tasks {
    seq(|tasks|, i requires 0 <= i < |tasks| => SyncItem(q, tasks[i]))
  }

  function Sync(q: Queue, tasks: Tasks): Tasks {
    Refresh(SyncItems(q, tasks))
  }

  predicate InQueue(q: Queue, id: string) {
    id in q.done || id in q.running || id in q.paused || id in q.failed || id in q.blocked || id in q.pending
  }

  ghost predicate WaitsForEvidence(error: string) {
    Contains(Lower(error), "external value evidence is required") || Contains(Lower(error), "external_evidence_required")
  }

  /** The status that the queue decides: the first directory that holds the task wins. */
  ghost function QueueStatus(q: Queue, id: string): Status
    requires InQueue(q, id)
  {
    if id in q.done then passed
    else if id in q.running then running
    else if id in q.paused then paused
    else if id in q.failed then respec_required
    else if id in q.blocked then (if WaitsForEvidence(q.blocked[id]) then external_wait else respec_required)
    else queued
  }

  lemma EvidenceMarkers(error: string)
    ensures WaitsForEvidence(error) <==> ContainsAny(Lower(error), EXTERNAL_EVIDENCE_MARKERS)
  {
    assert EXTERNAL_EVIDENCE_MARKERS[0] == "external value evidence is required";
    assert EXTERNAL_EVIDENCE_MARKERS[1] == "external_evidence_required";
  }

  /** What a sync decides for task `i`: nothing if it is terminally blocked; else what the queue says; else a
      task with a packet that is not finished, waiting or deferred counts as approved; and the rest is settled
      by the dependencies, as passed after the sync.  Only the status changes. */
  lemma SyncDecides(q: Queue, tasks: Tasks, i: nat)
    requires i < |tasks|
    ensures |Sync(q, tasks)| == |tasks|
    ensures var item, after := tasks[i], Sync(q, tasks)[i];
            && after == item.(status := after.status)
            && (item.terminalBlocked ==> after == item)
            && (!item.terminalBlocked && InQueue(q, item.taskId) ==> after.status == QueueStatus(q, item.taskId))
            && (!item.terminalBlocked && !InQueue(q, item.taskId) ==>
                  if item.packetPath.Some? && item.status !in {passed, external_wait, deferred} then after.status == packet_approved
                  else if item.status !in {blocked, ready} then after.status == item.status
                  else after.status == if AllPassed(Sync(q, tasks), item) then ready else blocked)
  {
    var synced := SyncItems(q, tasks);
    RefreshSettles(synced);
    assert Settled(synced, Sync(q, tasks), i);
    SettledKeepsPassed(synced, Sync(q, tasks), tasks[i]);
    if tasks[i].taskId in q.blocked {
      EvidenceMarkers(q.blocked[tasks[i].taskId]);
    }
  }

  /** Readiness never takes back what the sync changed, so the two together leave everything as it was exactly
      when neither changed a status. */
  lemma ChangeIsVisible(q: Queue, tasks: Tasks)
    ensures |Sync(q, tasks)| == |SyncItems(q, tasks)| == |tasks|
    ensures Sync(q, tasks) == tasks <==>
              forall i :: 0 <= i < |tasks| ==> SyncItems(q, tasks)[i].status == tasks[i].status && Sync(q, tasks)[i].status == SyncItems(q, tasks)[i].status
  {
    forall i | 0 <= i < |tasks|
      ensures Sync(q, tasks)[i] == tasks[i] <==>
                SyncItems(q, tasks)[i].status == tasks[i].status && Sync(q, tasks)[i].status == SyncItems(q, tasks)[i].status
    {
    }
  }

  // ----- The methods ------------------------------------------------------------------------------------

  class Ledger {
    var tasks: Tasks

    constructor (tasks: Tasks)
      ensures this.tasks == tasks
    {
      this.tasks := tasks;
    }

    /** `refresh_readiness`. */
    method RefreshReadiness()
      modifies this
      ensures tasks == Refresh(old(tasks))
      ensures |tasks| == |old(tasks)| && forall i :: 0 <= i < |tasks| ==> Settled(old(tasks), tasks, i)
    {
      RefreshSettles(tasks);
      var passedIds := PassedIds(tasks);
      for i := 0 to |tasks|
        invariant |tasks| == |old(tasks)|
        invariant forall j :: 0 <= j < i ==> tasks[j] == RefreshItem(passedIds, old(tasks)[j])
        invariant forall j :: i <= j < |tasks| ==> tasks[j] == old(tasks)[j]
      {
        tasks := tasks[i := RefreshItem(passedIds, tasks[i])];
      }
    }

    /** `next_ready`: the first automatable task that may start, if there is one.  Unless its packet was already
        approved, all its dependencies have passed. */
    method NextReady() returns (next: Option<nat>)
      modifies this
      ensures tasks == Refresh(old(tasks))
      ensures next.Some? ==>
                && next.value < |tasks| == |old(tasks)|
                && tasks[next.value].automatable && (tasks[next.value].status == ready || tasks[next.value].status == packet_approved)
                && (old(tasks)[next.value].terminalBlocked || old(tasks)[next.value].status == packet_approved
                    || AllPassed(tasks, tasks[next.value]))
      ensures next.Some? ==> next.value < |tasks| && Dispatchable(tasks[next.value])
      ensures next.Some? ==> forall j :: 0 <= j < next.value ==> !Dispatchable(tasks[j])
      ensures next.None? ==> forall j :: 0 <= j < |tasks| ==> !Dispatchable(tasks[j])
    {
      RefreshReadiness();
      forall i | 0 <= i < |tasks| && !old(tasks)[i].terminalBlocked && old(tasks)[i].status != packet_approved && Dispatchable(tasks[i])
        ensures AllPassed(tasks, tasks[i])
      {
        assert Settled(old(tasks), tasks, i);
        SettledKeepsPassed(old(tasks), tasks, tasks[i]);
      }
      for i := 0 to |tasks|
        invariant tasks == Refresh(old(tasks))
        invariant forall j :: 0 <= j < i ==> !Dispatchable(tasks[j])
      {
        if Dispatchable(tasks[i]) {
          return Some(i);
        }
      }
      return None;
    }

    /** `sync_ledger_from_queue`; it reports whether any status changed. */
    method SyncFromQueue(q: Queue) returns (changed: bool)
      modifies this
      ensures tasks == Sync(q, old(tasks))
      ensures changed <==> tasks != old(tasks)
    {
      changed := false;
      for i := 0 to |tasks|
        invariant |tasks| == |old(tasks)|
        invariant forall j :: 0 <= j < i ==> tasks[j] == SyncItem(q, old(tasks)[j])
        invariant forall j :: i <= j < |tasks| ==> tasks[j] == old(tasks)[j]
        invariant changed <==> exists j :: 0 <= j < i && tasks[j].status != old(tasks)[j].status
      {
        var synced := SyncItem(q, tasks[i]);
        if synced.status != tasks[i].status {
          changed := true;
        }
        tasks := tasks[i := synced];
      }
      assert tasks == SyncItems(q, old(tasks));
      var before := tasks;
      RefreshReadiness();
      if exists i :: 0 <= i < |tasks| && tasks[i].status != before[i].status {
        changed := true;
      }
      ChangeIsVisible(q, old(tasks));
    }

    /** `respec_failed_item`, as field assignments on the item. */
    method RespecFailed(l: Limits, i: nat, f: Failure) returns (changed: bool)
      requires i < |tasks|
      modifies this
      ensures changed == RespecFailedItem(l, old(tasks)[i], f).changed
      ensures tasks == old(tasks)[i := RespecFailedItem(l, old(tasks)[i], f).item]
    {
      var item := tasks[i];
      changed := false;
      if NeedsFactoryRepair(f) {
        item := item.(status := blocked, terminalBlocked := true);
        item := item.(infrastructureRecoveries := 0);
      } else {
        var value := IsValueFailure(f);
        var exhausted := if value then item.valueRevisions >= l.valueRedesigns else item.revisions >= l.respecifications;
        var infrastructure := IsInfrastructureFailure(f);
        if infrastructure && item.infrastructureRecoveries < l.infrastructure {
          item := item.(status := queued, terminalBlocked := false);
          item := item.(infrastructureRecoveries := item.infrastructureRecoveries + 1);
          changed := true;
        } else if exhausted {
          item := item.(status := blocked, terminalBlocked := true);
        } else {
          item := item.(revisions := item.revisions + 1);
          item := item.(infrastructureRecoveries := 0);
          if value {
            item := item.(valueRevisions := item.valueRevisions + 1);
          }
          item := item.(packetPath := None);
          item := item.(status := ready, terminalBlocked := false);
          changed := true;
        }
      }
      tasks := tasks[i := item];
    }
  }

  // ----- Runs of the controller ---------------------------------------------------------------------------

  datatype Event =
    | SyncQueue(queue: Queue)
    | RefreshAll
    | Dispatch(packet: string, enqueued: bool)
    | RespecFailed(failure: Failure, promoted: Option<string>)
    | Recover(index: nat, packetPresent: bool)

  function FirstIndex(tasks: Tasks, p: FeatureItem -> bool): Option<nat> {
    FirstIndexFrom(tasks, p, 0)
  }

  function FirstIndexFrom(tasks: Tasks, p: FeatureItem -> bool, i: nat): (r: Option<nat>)
    requires i <= |tasks|
    ensures r.Some? ==> i <= r.value < |tasks| && p(tasks[r.value]) && forall j :: i <= j < r.value ==> !p(tasks[j])
    ensures r.None? ==> forall j :: i <= j < |tasks| ==> !p(tasks[j])
    decreases |tasks| - i
  {
    if i == |tasks| then None else if p(tasks[i]) then Some(i) else FirstIndexFrom(tasks, p, i + 1)
  }

  function Selected(tasks: Tasks): (r: Option<nat>)
    ensures r.Some? ==> r.value < |tasks| && tasks[r.value].status == respec_required
    ensures forall j :: 0 <= j < |tasks| && tasks[j].status == respec_required ==> r.Some? && r.value <= j
  {
    FirstIndex(tasks, (item: FeatureItem) => item.status == respec_required)
  }

  /** A planner that got as far as promoting a packet leaves the task approved with that packet. */
  function Planned(item: FeatureItem, packet: string): FeatureItem {
    item.(status := packet_approved, packetPath := Some(packet))
  }

  function Step(l: Limits, tasks: Tasks, e: Event): Tasks {
    match e
    case SyncQueue(q) => Sync(q, tasks)
    case RefreshAll => Refresh(tasks)
    case Dispatch(packet, enqueued) =>
      var refreshed := Refresh(tasks);
      var next := FirstIndex(refreshed, Dispatchable);
      if next.None? then refreshed
      else
        var item := refreshed[next.value];
        var planned := if item.packetPath.None? then Planned(item, packet) else item;
        refreshed[next.value := if enqueued then planned.(status := queued) else planned]
    case RespecFailed(f, packet) =>
      var i := Selected(tasks);
      if i.None? then tasks
      else
        var r := RespecFailedItem(l, tasks[i.value], f);
        var item := if r.changed && r.item.status == ready && packet.Some? then Planned(r.item, packet.value) else r.item;
        tasks[i.value := item]
    case Recover(i, present) =>
      if i < |tasks| && tasks[i].status != passed then tasks[i := Recovered(tasks[i], present)] else tasks
  }

  /** `recover_task_after_verified_repair`. */
  function Recovered(item: FeatureItem, packetPresent: bool): FeatureItem {
    item.(terminalBlocked := false, infrastructureRecoveries := 0, status := if packetPresent then queued else ready)
  }

  function Run(l: Limits, tasks: Tasks, events: seq<Event>): Tasks {
    if events == [] then tasks else Step(l, Run(l, tasks, events[..|events| - 1]), events[|events| - 1])
  }

  /** Dispatch takes the first automatable task that is ready or approved after a refresh, gives it a packet if
      it has none, and leaves every other task as refreshed. */
  lemma DispatchTakesFirst(l: Limits, tasks: Tasks, packet: string, enqueued: bool)
    ensures var after, refreshed := Step(l, tasks, Event.Dispatch(packet, enqueued)), Refresh(tasks);
            && |after| == |refreshed| == |tasks|
            && ((exists i :: 0 <= i < |tasks| && Dispatched(refreshed, after, i, packet, enqueued))
                || (after == refreshed && forall i :: 0 <= i < |tasks| && refreshed[i].automatable ==>
                      refreshed[i].status != ready && refreshed[i].status != packet_approved))
  {
    var next := FirstIndex(Refresh(tasks), Dispatchable);
    if next.Some? {
      assert Dispatched(Refresh(tasks), Step(l, tasks, Event.Dispatch(packet, enqueued)), next.value, packet, enqueued);
    }
  }

  ghost predicate Dispatched(refreshed: Tasks, after: Tasks, i: nat, packet: string, enqueued: bool)
    requires i < |refreshed| == |after|
  {
    && refreshed[i].automatable && refreshed[i].status in {ready, packet_approved}
    && (forall j :: 0 <= j < i ==> !refreshed[j].automatable || refreshed[j].status !in {ready, packet_approved})
    && (forall j :: 0 <= j < |after| && j != i ==> after[j] == refreshed[j])
    && after[i].packetPath == (if refreshed[i].packetPath.Some? then refreshed[i].packetPath else Some(packet))
    && after[i].status == (if enqueued then queued else if refreshed[i].packetPath.Some? then refreshed[i].status else packet_approved)
    && SameCounters(after[i], refreshed[i])
  }

  /** A failure goes to the first task that asks for re-specification.  If that costs a revision and the planner
      promotes a packet, the task is approved with it; otherwise it is left as the retry policy says. */
  lemma RespecTakesFirst(l: Limits, tasks: Tasks, f: Failure, promoted: Option<string>, i: nat)
    requires i < |tasks| && tasks[i].status == respec_required && forall j :: 0 <= j < i ==> tasks[j].status != respec_required
    ensures var after, r := Step(l, tasks, Event.RespecFailed(f, promoted)), RespecFailedItem(l, tasks[i], f);
            && |after| == |tasks| && (forall j :: 0 <= j < |tasks| && j != i ==> after[j] == tasks[j])
            && (promoted.Some? && r.changed && r.item.revisions > tasks[i].revisions ==>
                  after[i] == r.item.(status := packet_approved, packetPath := promoted))
            && (promoted.None? || !r.changed || r.item.revisions == tasks[i].revisions ==> after[i] == r.item)
  {
    assert Selected(tasks) == Some(i);
  }

  /** A task whose packet is already approved is dispatched whether or not its dependencies have passed; no other
      task is ever dispatched before they have. */
  lemma DispatchedBeforeDependencies(tasks: Tasks, i: nat)
    requires TerminalMeansBlocked(tasks) && FirstIndex(Refresh(tasks), Dispatchable) == Some(i)
    ensures i < |tasks| == |Refresh(tasks)|
    ensures AllPassed(Refresh(tasks), tasks[i]) <==> tasks[i].status != packet_approved || AllPassed(tasks, tasks[i])
  {
    RefreshSettles(tasks);
    assert Settled(tasks, Refresh(tasks), i);
    SettledKeepsPassed(tasks, Refresh(tasks), tasks[i]);
  }

  /** For instance, a sync approves a blocked task that has a packet and is in no queue, and it is dispatched
      while the task it depends on is still running. */
  lemma PacketOvertakesDependency(a: FeatureItem, b: FeatureItem, q: Queue)
    requires a.status == running && a.taskId in q.running && a.taskId !in q.done && a.dependsOn == []
    requires b.dependsOn == [a.taskId] && b.status == blocked && b.packetPath.Some? && b.automatable
    requires !a.terminalBlocked && !b.terminalBlocked && !InQueue(q, b.taskId)
    ensures var tasks := Sync(q, [a, b]);
            && |tasks| == 2 && FirstIndex(Refresh(tasks), Dispatchable) == Some(1)
            && !AllPassed(Refresh(tasks), b)
  {
    var tasks := Sync(q, [a, b]);
    SyncDecides(q, [a, b], 0);
    SyncDecides(q, [a, b], 1);
    RefreshSettles(tasks);
    assert Settled(tasks, Refresh(tasks), 0) && Settled(tasks, Refresh(tasks), 1);
    assert a.taskId in b.dependsOn;
  }

  /** A recovery costs no revision: the task is open again with its packet and both revision counts, its
      infrastructure budget is full, and no other task moves.  A passed task is not recovered. */
  lemma RecoverySpendsNothing(l: Limits, tasks: Tasks, i: nat, packetPresent: bool)
    requires i < |tasks|
    ensures var after := Step(l, tasks, Recover(i, packetPresent));
            && |after| == |tasks| && (forall j :: 0 <= j < |tasks| && j != i ==> after[j] == tasks[j])
            && (tasks[i].status == passed ==> after == tasks)
            && (tasks[i].status != passed ==>
                  && !after[i].terminalBlocked && after[i].status == (if packetPresent then queued else ready)
                  && after[i].packetPath == tasks[i].packetPath && after[i].taskId == tasks[i].taskId
                  && after[i].dependsOn == tasks[i].dependsOn && after[i].automatable == tasks[i].automatable
                  && after[i].revisions == tasks[i].revisions && after[i].valueRevisions == tasks[i].valueRevisions
                  && Budget(l, after[i]) == Budget(l, tasks[i]) - Remaining(l.infrastructure, tasks[i].infrastructureRecoveries) + l.infrastructure)
  {
  }

  predicate TerminalMeansBlocked(tasks: Tasks) {
    forall i :: 0 <= i < |tasks| && tasks[i].terminalBlocked ==> tasks[i].status == blocked
  }

  predicate Recovers(e: Event, i: nat) {
    e.Recover? && e.index == i
  }

  predicate NeverRecovers(events: seq<Event>, i: nat) {
    forall k :: 0 <= k < |events| ==> !Recovers(events[k], i)
  }

  /** One step keeps terminal tasks blocked, and touches one only to recover it. */
  lemma StepKeepsTerminal(l: Limits, tasks: Tasks, e: Event)
    requires TerminalMeansBlocked(tasks)
    ensures TerminalMeansBlocked(Step(l, tasks, e)) && |Step(l, tasks, e)| == |tasks|
    ensures forall i :: 0 <= i < |tasks| && tasks[i].terminalBlocked && !Recovers(e, i) ==>
              Step(l, tasks, e)[i] == tasks[i]
  {
  }

  lemma {:induction false} RunKeepsTerminal(l: Limits, tasks: Tasks, events: seq<Event>)
    requires TerminalMeansBlocked(tasks)
    ensures TerminalMeansBlocked(Run(l, tasks, events)) && |Run(l, tasks, events)| == |tasks|
  {
    if events != [] {
      RunKeepsTerminal(l, tasks, events[..|events| - 1]);
      StepKeepsTerminal(l, Run(l, tasks, events[..|events| - 1]), events[|events| - 1]);
    }
  }

  /** Whatever the queue, the planner and other tasks do, a terminally blocked task stays exactly as it
      is until it is recovered. */
  lemma {:induction false} TerminalIsFinal(l: Limits, tasks: Tasks, events: seq<Event>, i: nat)
    requires TerminalMeansBlocked(tasks) && i < |tasks| && tasks[i].terminalBlocked && NeverRecovers(events, i)
    ensures |Run(l, tasks, events)| == |tasks| && Run(l, tasks, events)[i] == tasks[i]
  {
    if events != [] {
      var shorter := events[..|events| - 1];
      TerminalIsFinal(l, tasks, shorter, i);
      RunKeepsTerminal(l, tasks, shorter);
      StepKeepsTerminal(l, Run(l, tasks, shorter), events[|events| - 1]);
      assert !Recovers(events[|events| - 1], i);
    }
  }

  /** It is never selected, for dispatch or for re-specification. */
  lemma TerminalIsNeverSelected(tasks: Tasks, i: nat)
    requires TerminalMeansBlocked(tasks) && i < |tasks| && tasks[i].terminalBlocked
    ensures FirstIndex(Refresh(tasks), Dispatchable) != Some(i) && Selected(tasks) != Some(i)
  {
  }

  /** Retries that a step grants to task `i`. */
  function Granted(l: Limits, tasks: Tasks, e: Event, i: nat): nat {
    if e.RespecFailed? && Selected(tasks) == Some(i) && RespecFailedItem(l, tasks[i], e.failure).changed then 1 else 0
  }

  function Grants(l: Limits, tasks: Tasks, events: seq<Event>, i: nat): nat {
    if events == [] then 0
    else
      var shorter := events[..|events| - 1];
      Grants(l, tasks, shorter, i) + Granted(l, Run(l, tasks, shorter), events[|events| - 1], i)
  }

  /** A terminally blocked task has nothing left to spend. */
  function Potential(l: Limits, item: FeatureItem): nat {
    if item.terminalBlocked then 0 else Budget(l, item)
  }

  predicate SameCounters(a: FeatureItem, b: FeatureItem) {
    && a.revisions == b.revisions && a.valueRevisions == b.valueRevisions
    && a.infrastructureRecoveries == b.infrastructureRecoveries && a.terminalBlocked == b.terminalBlocked
  }

  /** Only re-specification and recovery touch a task's counters. */
  lemma OtherStepsKeepCounters(l: Limits, tasks: Tasks, e: Event, i: nat)
    requires i < |tasks| && !Recovers(e, i) && !(e.RespecFailed? && Selected(tasks) == Some(i))
    ensures |Step(l, tasks, e)| == |tasks| && SameCounters(Step(l, tasks, e)[i], tasks[i])
  {
    match e
    case SyncQueue(q) => RefreshKeepsCounters(SyncItems(q, tasks), i);
    case RefreshAll => RefreshKeepsCounters(tasks, i);
    case Dispatch(_, _) => RefreshKeepsCounters(tasks, i);
    case RespecFailed(_, _) =>
    case Recover(_, _) =>
  }

  lemma RefreshKeepsCounters(tasks: Tasks, i: nat)
    requires i < |tasks|
    ensures |Refresh(tasks)| == |tasks| && SameCounters(Refresh(tasks)[i], tasks[i])
  {
  }

  lemma StepSpendsPotential(l: Limits, tasks: Tasks, e: Event, i: nat)
    requires TerminalMeansBlocked(tasks) && i < |tasks| && !Recovers(e, i)
    ensures |Step(l, tasks, e)| == |tasks|
    ensures Potential(l, Step(l, tasks, e)[i]) + Granted(l, tasks, e, i) <= Potential(l, tasks[i])
  {
    if e.RespecFailed? && Selected(tasks) == Some(i) {
      RespecSpendsBudget(l, tasks[i], e.failure);
    } else {
      OtherStepsKeepCounters(l, tasks, e, i);
    }
  }

  lemma {:induction false} RunSpendsPotential(l: Limits, tasks: Tasks, events: seq<Event>, i: nat)
    requires TerminalMeansBlocked(tasks) && i < |tasks| && NeverRecovers(events, i)
    ensures |Run(l, tasks, events)| == |tasks|
    ensures Potential(l, Run(l, tasks, events)[i]) + Grants(l, tasks, events, i) <= Potential(l, tasks[i])
  {
    if events != [] {
      var shorter := events[..|events| - 1];
      RunSpendsPotential(l, tasks, shorter, i);
      RunKeepsTerminal(l, tasks, shorter);
      assert !Recovers(events[|events| - 1], i);
      StepSpendsPotential(l, Run(l, tasks, shorter), events[|events| - 1], i);
    }
  }

  /** In every controller run without a verified repair of the task, it is retried at most
      (R + V)(I + 1) + I times, however the other events interleave. */
  lemma RunsRespectTheBound(l: Limits, tasks: Tasks, events: seq<Event>, i: nat)
    requires TerminalMeansBlocked(tasks) && i < |tasks| && NeverRecovers(events, i) && ZeroCounters(tasks[i])
    ensures Grants(l, tasks, events, i) <= RetryBound(l)
  {
    FullBudget(l, tasks[i]);
    RunSpendsPotential(l, tasks, events, i);
  }
}
