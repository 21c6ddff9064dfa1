/** The bounded retry policy of tcfactory/autopilot.py over the roadmap of tcfactory/feature_ledger.py. */
module Autopilot {
  import opened Prelude
  import opened Text

  datatype Status =
    | blocked | ready | packet_proposed | packet_approved | queued | running
    | paused | passed | failed | respec_required | deferred | external_wait

  datatype FeatureItem = FeatureItem(
    taskId: string,
    dependsOn: seq<string>,
    status: Status,
    terminalBlocked: bool,
    packetPath: Option<string>,
    automatable: bool,
    revisions: nat,
    valueRevisions: nat,
    infrastructureRecoveries: nat)

  /** The three configured ceilings. */
  datatype Limits = Limits(respecifications: nat, valueRedesigns: nat, infrastructure: nat)

  // ----- Failure classification -------------------------------------------------------------------

  const FACTORY_REPAIR_MARKER: string := "factory_repair_required"

  const VALUE_MARKERS: seq<string> :=
    ["material-value gate", "value evidence gate", "predeclared materiality threshold"]

  const INFRASTRUCTURE_MARKERS: seq<string> :=
    ["cannot resume", "main moved from", "service capacity", "infrastructure_error",
     "reached maximum number of turns", "error_max_turns", "terminal_reason=max_turns",
     "terminal_reason=structured_output_retry_exhausted", "subtype=error_max_structured_output_retries"]

  /** A failed run: the error text of the queue and whether the task packet is still there. */
  datatype Failure = Failure(error: string, packetPresent: bool)

  predicate NeedsFactoryRepair(f: Failure) {
    Contains(Lower(f.error), FACTORY_REPAIR_MARKER)
  }

  predicate IsValueFailure(f: Failure) {
    ContainsAny(Lower(f.error), VALUE_MARKERS)
  }

  predicate IsInfrastructureFailure(f: Failure) {
    ContainsAny(Lower(f.error), INFRASTRUCTURE_MARKERS) && f.packetPresent
  }

  // ----- Re-specification ----------------------------------------------------------------------------

  datatype Respec = Respec(item: FeatureItem, changed: bool)

  function TerminallyBlocked(item: FeatureItem): FeatureItem {
    item.(status := blocked, terminalBlocked := true)
  }

  /** `respec_failed_item` with automatic re-specification on. */
  function RespecFailedItem(l: Limits, item: FeatureItem, f: Failure): Respec {
    if NeedsFactoryRepair(f) then
      Respec(TerminallyBlocked(item).(infrastructureRecoveries := 0), false)
    else
      var value := IsValueFailure(f);
      var ceiling := if value then l.valueRedesigns else l.respecifications;
      var current := if value then item.valueRevisions else item.revisions;
      var infrastructure := IsInfrastructureFailure(f);
      if infrastructure && item.infrastructureRecoveries < l.infrastructure then
        Respec(item.(status := queued, terminalBlocked := false,
                     infrastructureRecoveries := item.infrastructureRecoveries + 1), true)
      else if current >= ceiling then
        Respec(TerminallyBlocked(item), false)
      else
        Respec(item.(status := ready, terminalBlocked := false, packetPath := None,
                     revisions := item.revisions + 1,
                     valueRevisions := item.valueRevisions + (if value then 1 else 0),
                     infrastructureRecoveries := 0), true)
  }

  ghost predicate Mentions(f: Failure, markers: seq<string>) {
    exists m :: m in markers && Contains(Lower(f.error), m)
  }

  /** The four outcomes.  A protected defect blocks for good and forgets the infrastructure count; an
      infrastructure failure whose packet is there is queued again with the same packet; a failure at its
      ceiling blocks for good; any other one costs a revision, and a value revision if it was about value, and
      asks for a new packet. */
  lemma RespecOutcomes(l: Limits, item: FeatureItem, f: Failure)
    ensures var r := RespecFailedItem(l, item, f);
            var repair := Contains(Lower(f.error), "factory_repair_required");
            var value := Mentions(f, VALUE_MARKERS);
            var retried := f.packetPresent && Mentions(f, INFRASTRUCTURE_MARKERS) && item.infrastructureRecoveries < l.infrastructure;
            var exhausted := if value then item.valueRevisions >= l.valueRedesigns else item.revisions >= l.respecifications;
            && (r.changed <==> !repair && (retried || !exhausted))
            && (repair ==> r.item == item.(status := blocked, terminalBlocked := true, infrastructureRecoveries := 0))
            && (!repair && retried ==>
                  r.item == item.(status := queued, terminalBlocked := false, infrastructureRecoveries := item.infrastructureRecoveries + 1))
            && (!repair && !retried && exhausted ==> r.item == item.(status := blocked, terminalBlocked := true))
            && (!repair && !retried && !exhausted ==>
                  && r.item.status == ready && !r.item.terminalBlocked && r.item.packetPath.None?
                  && r.item.revisions == item.revisions + 1 && r.item.infrastructureRecoveries == 0
                  && (value ==> r.item.valueRevisions == item.valueRevisions + 1)
                  && (!value ==> r.item.valueRevisions == item.valueRevisions)
                  && r.item.taskId == item.taskId && r.item.dependsOn == item.dependsOn && r.item.automatable == item.automatable)
  {
    MentionsIsAny(f, VALUE_MARKERS);
    MentionsIsAny(f, INFRASTRUCTURE_MARKERS);
  }

  lemma MentionsIsAny(f: Failure, markers: seq<string>)
    ensures Mentions(f, markers) <==> ContainsAny(Lower(f.error), markers)
  {
    if Mentions(f, markers) {
      var m :| m in markers && Contains(Lower(f.error), m);
      var i :| 0 <= i < |markers| && markers[i] == m;
    }
  }

  function Remaining(ceiling: nat, used: nat): nat {
    if used < ceiling then ceiling - used else 0
  }

  /** How many more retries the item can still be granted, whatever goes wrong. */
  function Budget(l: Limits, item: FeatureItem): nat {
    (Remaining(l.respecifications, item.revisions) + Remaining(l.valueRedesigns, item.valueRevisions))
      * (l.infrastructure + 1)
    + Remaining(l.infrastructure, item.infrastructureRecoveries)
  }

  /** (R + V)(I + 1) + I. */
  function RetryBound(l: Limits): nat {
    (l.respecifications + l.valueRedesigns) * (l.infrastructure + 1) + l.infrastructure
  }

  lemma {:induction false} SmallerProduct(a: nat, b: nat, m: nat)
    requires a < b
    ensures a * m + m <= b * m
  {
    if b - 1 > a {
      SmallerProduct(a, b - 1, m);
    }
    assert (b - 1) * m + m == b * m;
  }

  /** Each granted retry costs budget; a refusal is terminal. */
  lemma RespecSpendsBudget(l: Limits, item: FeatureItem, f: Failure)
    ensures var r := RespecFailedItem(l, item, f);
            && (r.changed ==> Budget(l, r.item) < Budget(l, item) && !r.item.terminalBlocked)
            && (!r.changed ==> r.item.terminalBlocked && r.item.status == blocked)
  {
    var r := RespecFailedItem(l, item, f);
    if r.changed && r.item.revisions != item.revisions {
      var a := Remaining(l.respecifications, r.item.revisions) + Remaining(l.valueRedesigns, r.item.valueRevisions);
      var b := Remaining(l.respecifications, item.revisions) + Remaining(l.valueRedesigns, item.valueRevisions);
      SmallerProduct(a, b, l.infrastructure + 1);
    }
  }

  /** The item after a run of failures, stopping when it is terminally blocked; and the retries granted. */
  function Retries(l: Limits, item: FeatureItem, failures: seq<Failure>): (FeatureItem, nat)
    decreases |failures|
  {
    if failures == [] then (item, 0)
    else
      var r := RespecFailedItem(l, item, failures[0]);
      if !r.changed then (r.item, 0)
      else
        var (last, n) := Retries(l, r.item, failures[1..]);
        (last, n + 1)
  }

  lemma {:induction false} RetriesAreBounded(l: Limits, item: FeatureItem, failures: seq<Failure>)
    ensures Retries(l, item, failures).1 <= Budget(l, item)
    ensures |failures| > Budget(l, item) ==> Retries(l, item, failures).0.terminalBlocked
    decreases |failures|
  {
    if failures != [] {
      RespecSpendsBudget(l, item, failures[0]);
      var r := RespecFailedItem(l, item, failures[0]);
      if r.changed {
        RetriesAreBounded(l, r.item, failures[1..]);
      }
    }
  }

  predicate ZeroCounters(item: FeatureItem) {
    item.revisions == 0 && item.valueRevisions == 0 && item.infrastructureRecoveries == 0
  }

  lemma FullBudget(l: Limits, item: FeatureItem)
    requires ZeroCounters(item)
    ensures Budget(l, item) == RetryBound(l)
  {
    assert Remaining(l.respecifications, 0) == l.respecifications;
    assert Remaining(l.valueRedesigns, 0) == l.valueRedesigns;
  }

  /** No sequence of failure texts is granted more than (R + V)(I + 1) + I retries, and one more failure
      than that has blocked the task for good. */
  lemma FailuresCannotOutrunTheBound(l: Limits, item: FeatureItem, failures: seq<Failure>)
    requires ZeroCounters(item)
    ensures Retries(l, item, failures).1 <= RetryBound(l)
    ensures |failures| > RetryBound(l) ==> Retries(l, item, failures).0.terminalBlocked
  {
    FullBudget(l, item);
    RetriesAreBounded(l, item, failures);
  }

  // ----- The bound is tight ----------------------------------------------------------------------------

  const INFRASTRUCTURE: Failure := Failure("cannot resume", true)
  const PLAIN: Failure := Failure("", false)
  const VALUE: Failure := Failure("material-value gate", false)

  lemma WorstFailures()
    ensures !NeedsFactoryRepair(INFRASTRUCTURE) && !IsValueFailure(INFRASTRUCTURE) && IsInfrastructureFailure(INFRASTRUCTURE)
    ensures !NeedsFactoryRepair(PLAIN) && !IsValueFailure(PLAIN) && !IsInfrastructureFailure(PLAIN)
    ensures !NeedsFactoryRepair(VALUE) && IsValueFailure(VALUE) && !IsInfrastructureFailure(VALUE)
  {
    assert Lower("cannot resume") == "cannot resume";
    assert OccursAt("cannot resume", INFRASTRUCTURE_MARKERS[0], 0);
    assert Contains("cannot resume", INFRASTRUCTURE_MARKERS[0]);
    assert Lower("material-value gate") == "material-value gate";
    assert OccursAt("material-value gate", VALUE_MARKERS[0], 0);
    assert Contains("material-value gate", VALUE_MARKERS[0]);
    assert Lower("") == "";
  }

  /** Spend every infrastructure recovery before every revision, plain revisions first. */
  function Worst(l: Limits, a: nat, b: nat, c: nat): seq<Failure>
    decreases a + b, c
  {
    if c > 0 then [INFRASTRUCTURE] + Worst(l, a, b, c - 1)
    else if a > 0 then [PLAIN] + Worst(l, a - 1, b, l.infrastructure)
    else if b > 0 then [VALUE] + Worst(l, a, b - 1, l.infrastructure)
    else []
  }

  lemma GrantedInfrastructure(l: Limits, item: FeatureItem)
    requires item.infrastructureRecoveries < l.infrastructure
    ensures var r := RespecFailedItem(l, item, INFRASTRUCTURE);
            r.changed && r.item.revisions == item.revisions && r.item.valueRevisions == item.valueRevisions
            && r.item.infrastructureRecoveries == item.infrastructureRecoveries + 1
  {
    WorstFailures();
  }

  lemma GrantedPlain(l: Limits, item: FeatureItem)
    requires item.revisions < l.respecifications
    ensures var r := RespecFailedItem(l, item, PLAIN);
            r.changed && r.item.revisions == item.revisions + 1 && r.item.valueRevisions == item.valueRevisions
            && r.item.infrastructureRecoveries == 0
  {
    WorstFailures();
  }

  lemma GrantedValue(l: Limits, item: FeatureItem)
    requires item.valueRevisions < l.valueRedesigns
    ensures var r := RespecFailedItem(l, item, VALUE);
            r.changed && r.item.revisions == item.revisions + 1 && r.item.valueRevisions == item.valueRevisions + 1
            && r.item.infrastructureRecoveries == 0
  {
    WorstFailures();
  }

  lemma OneLess(n: nat, m: nat)
    requires n > 0
    ensures (n - 1) * m + m == n * m
  {
  }

  lemma {:induction false} OneMoreRetry(l: Limits, item: FeatureItem, f: Failure, rest: seq<Failure>)
    requires RespecFailedItem(l, item, f).changed
    ensures Retries(l, item, [f] + rest).1 == 1 + Retries(l, RespecFailedItem(l, item, f).item, rest).1
  {
    assert ([f] + rest)[1..] == rest;
  }

  lemma {:induction false} WorstSpendsEverything(l: Limits, item: FeatureItem, a: nat, b: nat, c: nat)
    requires Remaining(l.respecifications, item.revisions) == a
    requires Remaining(l.valueRedesigns, item.valueRevisions) == b
    requires Remaining(l.infrastructure, item.infrastructureRecoveries) == c
    ensures Retries(l, item, Worst(l, a, b, c)).1 == (a + b) * (l.infrastructure + 1) + c
    decreases a + b, c
  {
    if c > 0 {
      GrantedInfrastructure(l, item);
      OneMoreRetry(l, item, INFRASTRUCTURE, Worst(l, a, b, c - 1));
      WorstSpendsEverything(l, RespecFailedItem(l, item, INFRASTRUCTURE).item, a, b, c - 1);
    } else if a > 0 {
      GrantedPlain(l, item);
      OneMoreRetry(l, item, PLAIN, Worst(l, a - 1, b, l.infrastructure));
      WorstSpendsEverything(l, RespecFailedItem(l, item, PLAIN).item, a - 1, b, l.infrastructure);
      OneLess(a + b, l.infrastructure + 1);
    } else if b > 0 {
      GrantedValue(l, item);
      OneMoreRetry(l, item, VALUE, Worst(l, a, b - 1, l.infrastructure));
      WorstSpendsEverything(l, RespecFailedItem(l, item, VALUE).item, a, b - 1, l.infrastructure);
      OneLess(a + b, l.infrastructure + 1);
    }
  }

  lemma BoundIsReached(l: Limits, item: FeatureItem)
    requires ZeroCounters(item)
    ensures exists failures :: Retries(l, item, failures).1 == RetryBound(l)
  {
    WorstSpendsEverything(l, item, l.respecifications, l.valueRedesigns, l.infrastructure);
  }
}
