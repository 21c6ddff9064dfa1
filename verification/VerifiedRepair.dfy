/** Verified self-repair in tcfactory/autopilot.py: the bounded repair batch, the retry marker it leaves
    and the recovery that consumes it. */
module VerifiedRepair {
  import opened Prelude

  datatype Marker = Marker(artifact: Option<string>, blocker: Option<string>)

  /** A `*.result.json` file of the self-repair directory. */
  datatype Result = Result(name: string, applied: bool, modified: int)

  /** The consumption record; writing it always sets `repair_status_consumed`. */
  datatype Consumed = Consumed(artifact: Option<string>, latest: Option<string>, recoveredAt: int)

  /** `results` is in file-name order.  `merged` stands for repair_status "verified repair merged". */
  datatype World = World(
    marker: Option<Marker>,
    merged: bool,
    consumed: Option<Consumed>,
    results: seq<Result>,
    now: int)

  function Latest(w: World): Option<Result> {
    if w.results == [] then None else Some(w.results[|w.results| - 1])
  }

  /** The migration fallback: the latest result file, unless consumption already covers it. */
  predicate FallbackSignal(w: World) {
    && Latest(w).Some?
    && Latest(w).value.applied
    && match w.consumed
       case None => true
       case Some(c) =>
         && c.artifact != Some(Latest(w).value.name)
         && c.latest != Some(Latest(w).value.name)
         && Latest(w).value.modified > c.recoveredAt
  }

  /** `_verified_repair_intent` has a signal. */
  predicate HasSignal(w: World) {
    w.marker.Some? || (w.merged && w.consumed.None?) || FallbackSignal(w)
  }

  function SignalArtifact(w: World): Option<string> {
    if w.marker.Some? then w.marker.value.artifact
    else if w.merged && w.consumed.None? then None
    else if Latest(w).Some? then Some(Latest(w).value.name) else None
  }

  predicate Precedes(a: string, b: string) {
    if b == [] then false
    else if a == [] then true
    else a[0] < b[0] || (a[0] == b[0] && Precedes(a[1..], b[1..]))
  }

  function InsertByName(results: seq<Result>, r: Result): seq<Result> {
    if results == [] then [r]
    else
      var last := results[|results| - 1];
      if last.name == r.name then results[..|results| - 1] + [r]
      else if Precedes(last.name, r.name) then results + [r]
      else InsertByName(results[..|results| - 1], r) + [last]
  }

  predicate SortedByName(results: seq<Result>) {
    forall i, j :: 0 <= i < j < |results| ==> Precedes(results[i].name, results[j].name)
  }

  /** At the first place where they differ, the first name has the smaller character, or has ended. */
  ghost predicate DiffersAt(a: string, b: string, k: nat) {
    k <= |a| && k < |b| && a[..k] == b[..k] && (k < |a| ==> a[k] < b[k])
  }

  /** The order is that of `sorted` on file names. */
  lemma {:induction false} PrecedesExactly(a: string, b: string)
    ensures Precedes(a, b) <==> exists k :: 0 <= k <= |a| && DiffersAt(a, b, k)
  {
    if a == [] || b == [] || a[0] != b[0] {
      if Precedes(a, b) {
        assert DiffersAt(a, b, 0);
      } else {
        forall k | 0 <= k <= |a| ensures !DiffersAt(a, b, k) {
          assert k > 0 && k <= |a| && k <= |b| ==> a[..k][0] == a[0] && b[..k][0] == b[0];
        }
      }
    } else {
      PrecedesExactly(a[1..], b[1..]);
      if Precedes(a[1..], b[1..]) {
        var k :| 0 <= k <= |a[1..]| && DiffersAt(a[1..], b[1..], k);
        assert a[..k + 1] == [a[0]] + a[1..][..k] && b[..k + 1] == [b[0]] + b[1..][..k];
        assert DiffersAt(a, b, k + 1);
      }
      if k :| 0 <= k <= |a| && DiffersAt(a, b, k) {
        assert k > 0;
        assert a[1..][..k - 1] == a[..k][1..] && b[1..][..k - 1] == b[..k][1..];
        assert DiffersAt(a[1..], b[1..], k - 1);
      }
    }
  }

  lemma {:induction false} PrecedesIsTransitive(a: string, b: string, c: string)
    requires Precedes(a, b) && Precedes(b, c)
    ensures Precedes(a, c)
  {
    if a != [] && a[0] == b[0] == c[0] {
      PrecedesIsTransitive(a[1..], b[1..], c[1..]);
    }
  }

  lemma {:induction false} PrecedesIsTotal(a: string, b: string)
    ensures a == b || Precedes(a, b) || Precedes(b, a)
  {
    if a != [] && b != [] && a[0] == b[0] {
      PrecedesIsTotal(a[1..], b[1..]);
      assert a == [a[0]] + a[1..] && b == [b[0]] + b[1..];
    }
  }

  lemma {:induction false} PrecedesIsIrreflexive(a: string)
    ensures !Precedes(a, a)
  {
    if a != [] {
      PrecedesIsIrreflexive(a[1..]);
    }
  }

  /** Writing a result file keeps the name order, replaces a file of the same name and leaves every other. */
  lemma {:induction false} InsertKeepsOrder(results: seq<Result>, r: Result)
    requires SortedByName(results)
    ensures SortedByName(InsertByName(results, r))
    ensures forall x :: x in InsertByName(results, r) <==> x == r || (x in results && x.name != r.name)
  {
    if results != [] {
      var front, last := results[..|results| - 1], results[|results| - 1];
      assert results == front + [last];
      forall x | x in front ensures Precedes(x.name, last.name) && x.name != last.name {
        var i :| 0 <= i < |front| && front[i] == x;
        PrecedesIsIrreflexive(last.name);
      }
      if last.name == r.name {
      } else if Precedes(last.name, r.name) {
        PrecedesIsIrreflexive(r.name);
        forall x | x in front ensures Precedes(x.name, r.name) && x.name != r.name {
          PrecedesIsTransitive(x.name, last.name, r.name);
        }
      } else {
        PrecedesIsTotal(last.name, r.name);
        InsertKeepsOrder(front, r);
        var inserted := InsertByName(front, r);
        forall i | 0 <= i < |inserted| ensures Precedes(inserted[i].name, last.name) {
          assert inserted[i] in inserted;
        }
      }
    }
  }

  datatype Event =
    | Tick(elapsed: nat)
    | ResultWritten(name: string, applied: bool)
    | Merged(name: string, artifact: Option<string>, blocker: Option<string>)
    | StatusSet(merged: bool)
    | Recover

  /** The consumption record and the removal of the marker at the end of a recovery. */
  function Consume(w: World): World {
    w.(consumed := Some(Consumed(SignalArtifact(w), if Latest(w).Some? then Some(Latest(w).value.name) else None, w.now)))
  }

  function Step(w: World, e: Event): World {
    match e
    case Tick(n) => w.(now := w.now + n)
    case ResultWritten(name, applied) => w.(results := InsertByName(w.results, Result(name, applied, w.now)))
    case Merged(name, artifact, blocker) =>
      w.(results := InsertByName(w.results, Result(name, true, w.now)),
         marker := Some(Marker(artifact, blocker)), merged := true)
    case StatusSet(merged) => w.(merged := merged)
    case Recover => if HasSignal(w) then Consume(w).(marker := None, merged := false) else w
  }

  function Run(w: World, events: seq<Event>): World {
    if events == [] then w else Step(Run(w, events[..|events| - 1]), events[|events| - 1])
  }

  /** An applied repair is recorded: a result file with its retry marker, or, as before the marker
      existed, a result file alone. */
  predicate RecordsRepair(e: Event) {
    e.Merged? || (e.ResultWritten? && e.applied)
  }

  /** Everything recorded so far is consumed. */
  predicate Quiet(w: World) {
    && w.marker.None? && w.consumed.Some?
    && (Latest(w).Some? ==> !Latest(w).value.applied || w.consumed.value.latest == Some(Latest(w).value.name))
  }

  lemma QuietHasNoSignal(w: World)
    requires Quiet(w)
    ensures !HasSignal(w)
  {
  }

  lemma RecoveryQuiets(w: World)
    requires HasSignal(w)
    ensures Quiet(Step(w, Recover))
  {
  }

  /** A recovery records the artifact it acted on, the newest result file and the time, takes the marker away and
      withdraws the merged status; without a signal nothing happens. */
  lemma RecoveryRecords(w: World)
    ensures var after := Step(w, Recover);
            && (!HasSignal(w) ==> after == w)
            && (HasSignal(w) ==>
                  && after.marker.None? && !after.merged && after.results == w.results && after.now == w.now
                  && after.consumed.Some? && after.consumed.value.recoveredAt == w.now
                  && after.consumed.value.latest == (if w.results == [] then None else Some(w.results[|w.results| - 1].name))
                  && (w.marker.Some? ==> after.consumed.value.artifact == w.marker.value.artifact)
                  && (w.marker.None? && w.merged && w.consumed.None? ==> after.consumed.value.artifact.None?)
                  && (w.marker.None? && !(w.merged && w.consumed.None?) ==> after.consumed.value.artifact == after.consumed.value.latest))
  {
  }

  /** A merged repair raises the signal, and it stays up until a recovery, whatever else happens. */
  lemma {:induction false} MergedWaitsForRecovery(w: World, name: string, artifact: Option<string>, blocker: Option<string>, events: seq<Event>)
    requires forall k :: 0 <= k < |events| ==> !events[k].Recover?
    ensures var after := Run(Step(w, Merged(name, artifact, blocker)), events);
            HasSignal(after) && after.marker.Some?
    ensures var merged := Step(w, Merged(name, artifact, blocker));
            && merged.marker == Some(Marker(artifact, blocker)) && merged.merged
            && merged.results == InsertByName(w.results, Result(name, true, w.now)) && merged.now == w.now && merged.consumed == w.consumed
  {
    if events != [] {
      MergedWaitsForRecovery(w, name, artifact, blocker, events[..|events| - 1]);
    }
  }

  /** Without a marker and without result files, the merged status raises the signal until the first recovery. */
  lemma StatusSignalsExactly(w: World)
    requires w.marker.None? && w.results == []
    ensures HasSignal(w) <==> w.merged && w.consumed.None?
  {
  }

  /** Without a marker, the newest result file alone raises the signal exactly if it was applied, is not a
      consumed one and is younger than the last recovery. */
  lemma FallbackExactly(w: World, name: string, applied: bool)
    requires SortedByName(w.results) && (forall r :: r in w.results ==> Precedes(r.name, name))
    requires w.marker.None? && !w.merged
    ensures HasSignal(Step(w, ResultWritten(name, applied))) <==>
              applied && (w.consumed.Some? ==>
                            && w.now > w.consumed.value.recoveredAt
                            && w.consumed.value.artifact != Some(name) && w.consumed.value.latest != Some(name))
  {
    var results := InsertByName(w.results, Result(name, applied, w.now));
    if w.results != [] {
      assert w.results[|w.results| - 1] in w.results;
      PrecedesIsIrreflexive(name);
    }
    assert results == w.results + [Result(name, applied, w.now)];
  }

  lemma {:induction false} InsertedLast(results: seq<Result>, r: Result)
    ensures InsertByName(results, r) != []
    ensures var last := InsertByName(results, r)[|InsertByName(results, r)| - 1];
            last == r || (results != [] && last == results[|results| - 1])
  {
  }

  lemma QuietLasts(w: World, e: Event)
    requires Quiet(w) && !RecordsRepair(e)
    ensures Quiet(Step(w, e))
  {
    if e.ResultWritten? {
      InsertedLast(w.results, Result(e.name, e.applied, w.now));
    }
  }

  /** After a recovery there is no signal until a newer applied repair is recorded. */
  lemma {:induction false} NoSignalUntilNextRepair(w: World, events: seq<Event>)
    requires HasSignal(w)
    requires forall k :: 0 <= k < |events| ==> !RecordsRepair(events[k])
    ensures Quiet(Run(Step(w, Recover), events)) && !HasSignal(Run(Step(w, Recover), events))
  {
    if events == [] {
      RecoveryQuiets(w);
    } else {
      var last := |events| - 1;
      NoSignalUntilNextRepair(w, events[..last]);
      assert !RecordsRepair(events[last]);
      QuietLasts(Run(Step(w, Recover), events[..last]), events[last]);
    }
    QuietHasNoSignal(Run(Step(w, Recover), events));
  }

  function Recoveries(w: World, events: seq<Event>): nat {
    if events == [] then 0
    else
      var before := Run(w, events[..|events| - 1]);
      Recoveries(w, events[..|events| - 1]) + (if events[|events| - 1].Recover? && HasSignal(before) then 1 else 0)
  }

  function Repairs(events: seq<Event>): nat {
    if events == [] then 0
    else Repairs(events[..|events| - 1]) + (if RecordsRepair(events[|events| - 1]) then 1 else 0)
  }

  lemma {:induction false} RecoveriesPlusPending(w: World, events: seq<Event>)
    ensures Recoveries(w, events) + (if Quiet(Run(w, events)) then 0 else 1)
              <= Repairs(events) + (if Quiet(w) then 0 else 1)
  {
    if events != [] {
      var last := |events| - 1;
      RecoveriesPlusPending(w, events[..last]);
      var before, e := Run(w, events[..last]), events[last];
      if e.Recover? && HasSignal(before) {
        RecoveryQuiets(before);
        assert !Quiet(before) by {
          if Quiet(before) {
            QuietHasNoSignal(before);
          }
        }
      } else if Quiet(before) && !RecordsRepair(e) {
        QuietLasts(before, e);
      }
    }
  }

  /** Over any crash-free run, recoveries never outnumber recorded repairs by more than the one signal
      that may have been pending at the start. */
  lemma EachRepairReopensOnce(w: World, events: seq<Event>)
    ensures Recoveries(w, events) <= Repairs(events) + 1
    ensures Quiet(w) ==> Recoveries(w, events) <= Repairs(events)
  {
    RecoveriesPlusPending(w, events);
  }

  /** A crash between the consumption record and the removal of the marker leaves the signal up. */
  lemma CrashBeforeUnlinkKeepsSignal(w: World)
    ensures HasSignal(Consume(w)) <==> w.marker.Some?
  {
  }

  // ----- The repair batch -----------------------------------------------------------------------------

  datatype Attempt = Applied(name: string, artifact: Option<string>) | NotApplied | Paused

  datatype Batch = Restarting | Waiting | HardStuck

  /** `_repair_or_hard_stuck`: one batch of self-repair for a blocker, attempt by attempt. */
  class Controller {
    var world: World
    var repairAttempts: nat

    method RepairOrHardStuck(enabled: bool, limit: nat, blocker: string, attempts: seq<Attempt>) returns (batch: Batch, used: nat)
      requires limit <= |attempts|
      modifies this
      ensures used <= limit && repairAttempts == old(repairAttempts) + used
      ensures old(repairAttempts) <= limit ==> repairAttempts <= limit
      ensures batch.HardStuck? && enabled ==> repairAttempts >= limit
      ensures batch.Restarting? <==> used > 0 && attempts[used - 1].Applied?
      ensures batch.Waiting? <==> used > 0 && attempts[used - 1].Paused?
      ensures !enabled ==> used == 0
      ensures forall i :: 0 <= i < used && i < used - 1 ==> attempts[i].NotApplied?
      ensures world == if batch.Restarting? then Step(old(world), Merged(attempts[used - 1].name, attempts[used - 1].artifact, Some(blocker)))
                       else old(world).(merged := false)
    {
      used := 0;
      while enabled && repairAttempts < limit
        invariant used <= limit && repairAttempts == old(repairAttempts) + used
        invariant old(repairAttempts) <= limit ==> repairAttempts <= limit
        invariant !enabled ==> used == 0
        invariant repairAttempts > old(repairAttempts) ==> repairAttempts <= limit
        invariant forall i :: 0 <= i < used ==> attempts[i].NotApplied?
        invariant world == old(world).(merged := if used > 0 then false else old(world).merged)
        decreases limit - repairAttempts
      {
        repairAttempts := repairAttempts + 1;
        world := world.(merged := false);
        var outcome := attempts[used];
        used := used + 1;
        match outcome
        case Paused => return Waiting, used;
        case Applied(name, artifact) =>
          world := Step(world, Merged(name, artifact, Some(blocker)));
          return Restarting, used;
        case NotApplied =>
      }
      world := world.(merged := false);
      return HardStuck, used;
    }
  }
}
