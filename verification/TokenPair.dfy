/** When the installed token and the installed metadata belong together.

    Every installed token is genuine, but `promote` installs the metadata first: a crash in between, or another
    promote that overlaps, leaves the two files of different refreshes. */
module TokenPair {
  import opened Prelude
  import opened TokenHandoff
  import opened TokenHost

  predicate IsPromote(p: Proc) {
    !p.RefreshToken? && !p.RefreshMetadata? && !p.Done?
  }

  /** The metadata is installed and the token is not. */
  predicate Between(p: Proc) {
    p.OwnMetadata? || p.InstallToken?
  }

  /** The event starts no second promote and crashes none between its two installs. */
  predicate Orderly(s: State, e: Event) {
    match e
    case StartPromote(_) => forall q :: q in s.procs ==> !IsPromote(s.procs[q])
    case Crash(pid) => pid in s.procs ==> !Between(s.procs[pid])
    case _ => true
  }

  predicate OrderlyRun(policy: Policy, s: State, events: seq<(Event, int)>) {
    forall k :: 0 <= k < |events| ==> Orderly(RunAll(policy, s, events[..k]), events[k].0)
  }

  predicate Quiet(s: State) {
    forall q :: q in s.procs ==> !Between(s.procs[q])
  }

  predicate SameTarget(first: State, s: State) {
    && first.targetToken.Some? == s.targetToken.Some? && first.targetMetadata.Some? == s.targetMetadata.Some?
    && (s.targetToken.Some? ==> s.targetToken.value.value == first.targetToken.value.value)
    && (s.targetMetadata.Some? ==> s.targetMetadata.value.value == first.targetMetadata.value.value)
  }

  /** The target holds what it held at first, or a token and the metadata that one refresh issued with it. */
  predicate Together(first: State, s: State) {
    || SameTarget(first, s)
    || (s.targetToken.Some? && s.targetMetadata.Some? && (s.targetToken.value.value, s.targetMetadata.value.value) in s.issued)
  }

  predicate PairInv(first: State, s: State) {
    && (forall p, q :: p in s.procs && q in s.procs && IsPromote(s.procs[p]) && IsPromote(s.procs[q]) ==> p == q)
    && (forall q :: q in s.procs && Between(s.procs[q]) ==>
          s.targetMetadata.Some? && s.targetMetadata.value.value == s.procs[q].metadata)
    && (Quiet(s) ==> Together(first, s))
  }

  lemma AdvanceKeepsPair(policy: Policy, first: State, s: State, pid: nat, now: int)
    requires PairInv(first, s) && pid in s.procs && ProcInv(policy, s, s.procs[pid])
    ensures PairInv(first, Advance(policy, s, pid, now))
  {
    var t := Advance(policy, s, pid, now);
    forall q | q in s.procs && q != pid ensures q in t.procs && t.procs[q] == s.procs[q] {
    }
    if s.procs[pid].InstallToken? {
      assert Quiet(t) && Together(first, t);
    } else if !Between(t.procs[pid]) && Quiet(t) {
      assert Quiet(s);
    }
  }

  lemma StepKeepsPair(policy: Policy, first: State, s: State, e: Event, now: int)
    requires PairInv(first, s) && Orderly(s, e) && forall q :: q in s.procs ==> ProcInv(policy, s, s.procs[q])
    ensures PairInv(first, Apply(policy, s, e, now))
  {
    var t := Apply(policy, s, e, now);
    match e
    case Run(pid) => if pid in s.procs { AdvanceKeepsPair(policy, first, s, pid, now); }
    case Crash(pid) =>
      forall q | q in s.procs && q != pid ensures q in t.procs && t.procs[q] == s.procs[q] {
      }
      assert Quiet(t) ==> Quiet(s);
    case StartRefresh(pid, _, _) =>
      forall q | q in s.procs ensures q in t.procs && t.procs[q] == s.procs[q] {
      }
    case StartPromote(pid) =>
      forall q | q in s.procs ensures q in t.procs && t.procs[q] == s.procs[q] {
      }
  }

  lemma {:induction false} RunsKeepPair(policy: Policy, s: State, events: seq<(Event, int)>)
    requires Initial(policy, s) && OrderlyRun(policy, s, events)
    ensures PairInv(s, RunAll(policy, s, events))
  {
    if events != [] {
      var last := |events| - 1;
      var shorter := events[..last];
      forall k | 0 <= k < last ensures Orderly(RunAll(policy, s, shorter[..k]), shorter[k].0) {
        assert shorter[..k] == events[..k];
      }
      RunsKeepPair(policy, s, shorter);
      RunsKeepInv(policy, s, shorter);
      StepKeepsPair(policy, s, RunAll(policy, s, shorter), events[last].0, events[last].1);
    }
  }

  /** Without overlapping promotes and without a crash between the two installs, the target pair belongs
      together whenever no promote is between them. */
  lemma {:induction false} TargetPairBelongsTogether(policy: Policy, s: State, events: seq<(Event, int)>)
    requires Initial(policy, s) && OrderlyRun(policy, s, events)
    ensures Quiet(RunAll(policy, s, events)) ==> Together(s, RunAll(policy, s, events))
  {
    RunsKeepPair(policy, s, events);
  }

  const STEPS_BETWEEN: nat := 4

  /** A crash between the installs leaves new metadata beside the old token, for every pair that can be
      promoted over a token it was not issued with. */
  lemma {:induction false} CrashTearsTarget(policy: Policy, s: State, pid: nat, now: int)
    requires Initial(policy, s) && CanPromote(policy, FilesOf(s), now) && s.targetToken.Some?
    requires s.targetMetadata.Some? ==> s.targetMetadata.value.value != s.outboxMetadata.value
    requires s.targetToken.value.value != s.outboxToken.value
    ensures var t := Apply(policy, Undisturbed(policy, Apply(policy, s, StartPromote(pid), now), pid, now, STEPS_BETWEEN), Crash(pid), now);
            Quiet(t) && !Together(s, t)
  {
    PromoteSteps(policy, s, pid, now, STEPS_BETWEEN);
    var t := Apply(policy, Undisturbed(policy, Apply(policy, s, StartPromote(pid), now), pid, now, STEPS_BETWEEN), Crash(pid), now);
    assert FilesOf(t) == FilesAt(policy, FilesOf(s), now, STEPS_BETWEEN) && t.procs == map[];
    assert s.outboxMetadata.value.tokenDigest == Digest(s.outboxToken.value);
  }
}
