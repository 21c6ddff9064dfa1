/** When a refresh that stopped can still be finished by invoking it again.

    `refresh` attests the live set before it looks at the journal, so not every interrupted refresh recovers.
    The exact condition can be read off the disk before the next invocation. */
module RefreshRecovery {
  import opened Prelude
  import opened RuntimeRefresh

  /** The generation slot does not conflict with the one to be built. */
  predicate SlotFree(c: Context, d: Disk) {
    d.generation.Absent? || d.generation == Whole(c.generation)
  }

  predicate IsCommitted(d: Disk) {
    d.journal.Some? && d.journal.value.phase == COMMITTED
  }

  /** The live set is still the installed one, the journal is not COMMITTED, and no torn or foreign
      generation is in the way unless a journalled rollback will remove it. */
  predicate CanFinish(c: Context, d: Disk) {
    && AttestPre(c.handoff, d.live)
    && !IsCommitted(d)
    && (Early(d) ==> SlotFree(c, d))
  }

  // ----- What a journalled switch says about the slot ------------------------------------------------------

  /** A generation that the transaction did not create is never removed. */
  predicate Kept(c: Context, created: bool, d: Disk) {
    !created ==> d.generation == Whole(c.generation)
  }

  predicate SwitchSlot(c: Context, d: Disk, sw: Journal) {
    Kept(c, sw.generationCreated, d) && (!Early(d) ==> d.journal.value.generationCreated == sw.generationCreated)
  }

  predicate ProcSlot(c: Context, d: Disk, p: Proc) {
    match p
    case Stage(_) => d.generation == Whole(c.generation)
    case Copy(_) => d.generation == Whole(c.generation)
    case Backup(_, _) => d.generation == Whole(c.generation)
    case Plan(_) => d.generation == Whole(c.generation)
    case Unwind(sw, _) => SwitchSlot(c, d, sw)
    case _ => Handler(p).Some? ==> SwitchSlot(c, d, Handler(p).value)
  }

  predicate SlotInv(c: Context, s: State) {
    && (!Early(s.disk) ==> Kept(c, s.disk.journal.value.generationCreated, s.disk))
    && ProcSlot(c, s.disk, s.proc)
  }

  lemma RollbackStepKeepsSlot(c: Context, j: Journal, k: nat, d: Disk)
    requires k < ROLLBACK_STEPS && Kept(c, j.generationCreated, d)
    ensures Kept(c, j.generationCreated, RollbackStep(j, k, d)) && RollbackStep(j, k, d).journal == d.journal
  {
  }

  lemma SwitchStepKeepsSlot(c: Context, k: nat, d: Disk)
    requires k < SWITCH_STEPS
    ensures SwitchStep(c, k, d).generation == d.generation && SwitchStep(c, k, d).journal == d.journal
  {
  }

  lemma BackupStepKeepsSlot(k: nat, d: Disk)
    requires k < BACKUP_STEPS
    ensures BackupStep(k, d).generation == d.generation && BackupStep(k, d).journal == d.journal
  {
  }

  /** Which journal a step may find. */
  predicate Placed(s: State) {
    match s.proc
    case Resume(j, _) => s.disk.journal == Some(j) && !Early(s.disk)
    case Prepare => Early(s.disk)
    case Build => Early(s.disk)
    case Stage(_) => Early(s.disk)
    case Copy(_) => Early(s.disk)
    case Backup(_, _) => Early(s.disk)
    case Plan(_) => Early(s.disk)
    case Journalling(_) => Early(s.disk)
    case _ => true
  }

  lemma InvPlaces(c: Context, s: State)
    requires Inv(c, s)
    ensures Placed(s)
  {
  }

  lemma RollbackKeepsSlot(c: Context, s: State)
    requires Placed(s) && SlotInv(c, s) && (s.proc.Resume? || s.proc.Unwind?)
    ensures SlotInv(c, Advance(c, s))
  {
    var j := if s.proc.Resume? then s.proc.journal else s.proc.switching;
    if s.proc.k < ROLLBACK_STEPS {
      RollbackStepKeepsSlot(c, j, s.proc.k, s.disk);
    }
  }

  lemma SwitchKeepsSlot(c: Context, s: State)
    requires Placed(s) && SlotInv(c, s) && Handler(s.proc).Some?
    ensures SlotInv(c, Advance(c, s))
  {
    if s.proc.Switching? && s.proc.k < SWITCH_STEPS {
      SwitchStepKeepsSlot(c, s.proc.k, s.disk);
    }
  }

  lemma StagingKeepsSlot(c: Context, s: State)
    requires Placed(s) && SlotInv(c, s) && !s.proc.Resume? && !s.proc.Unwind? && Handler(s.proc).None?
    ensures SlotInv(c, Advance(c, s))
  {
    if s.proc.Backup? && s.proc.k < BACKUP_STEPS {
      BackupStepKeepsSlot(s.proc.k, s.disk);
    }
  }

  lemma AdvanceKeepsSlot(c: Context, s: State)
    requires Placed(s) && SlotInv(c, s)
    ensures SlotInv(c, Advance(c, s))
  {
    if s.proc.Resume? || s.proc.Unwind? {
      RollbackKeepsSlot(c, s);
    } else if Handler(s.proc).Some? {
      SwitchKeepsSlot(c, s);
    } else {
      StagingKeepsSlot(c, s);
    }
  }

  lemma {:induction false} RunKeepsSlot(c: Context, s: State, events: seq<Event>)
    requires Initial(c, s)
    ensures SlotInv(c, Run(c, s, events))
  {
    if events != [] {
      var last := |events| - 1;
      RunKeepsSlot(c, s, events[..last]);
      RunKeepsInv(c, s, events[..last]);
      var t := Run(c, s, events[..last]);
      match events[last]
      case Start =>
      case Step => InvPlaces(c, t); AdvanceKeepsSlot(c, t);
      case Raise =>
      case Crash =>
    }
  }

  // ----- An exception leaves the slot as it was ------------------------------------------------------------

  /** The journal to be written says that the invocation made the generation exactly if the slot was empty. */
  predicate Owned(c: Context, slot: Stored<Generation>, created: bool, d: Disk) {
    created == slot.Absent? && d.generation == Whole(c.generation) && (slot.Absent? || slot == d.generation)
  }

  /** What the first invocation knows of the slot it found. */
  predicate SlotKnown(c: Context, slot: Stored<Generation>, s: State) {
    match s.proc
    case Idle => true
    case Begin => s.disk.generation == slot && s.disk.journal.None?
    case Attested => s.disk.generation == slot && s.disk.journal.None?
    case Prepare => s.disk.generation == slot
    case Build => s.disk.generation == slot
    case Stage(created) => Owned(c, slot, created, s.disk)
    case Copy(created) => Owned(c, slot, created, s.disk)
    case Backup(created, _) => Owned(c, slot, created, s.disk)
    case Plan(created) => Owned(c, slot, created, s.disk)
    case Journalling(sw) => Owned(c, slot, sw.generationCreated, s.disk)
    case Switching(sw, _) => Owned(c, slot, sw.generationCreated, s.disk)
    case Bind(sw) => Owned(c, slot, sw.generationCreated, s.disk)
    case Commit(sw) => Owned(c, slot, sw.generationCreated, s.disk)
    case Recheck(sw) => Owned(c, slot, sw.generationCreated, s.disk)
    case Publish(sw) => Owned(c, slot, sw.generationCreated, s.disk)
    case Unwind(_, _) => true
    case Returned => true
    case _ => false
  }

  lemma {:induction false} StepsKnowSlot(c: Context, s: State, n: nat)
    requires s.proc.Begin? && s.disk.journal.None?
    ensures SlotKnown(c, s.disk.generation, Steps(c, s, n))
  {
    if n > 0 {
      StepsKnowSlot(c, s, n - 1);
      var t := Steps(c, s, n - 1);
      if t.proc.Backup? && t.proc.k < BACKUP_STEPS {
        BackupStepKeepsSlot(t.proc.k, t.disk);
      } else if t.proc.Switching? && t.proc.k < SWITCH_STEPS {
        SwitchStepKeepsSlot(c, t.proc.k, t.disk);
      }
    }
  }

  lemma UnwindFreesSlot(c: Context, s: State, slot: Stored<Generation>)
    requires s.proc.Unwind? && s.proc.k == 0 && Owned(c, slot, s.proc.switching.generationCreated, s.disk)
    ensures Steps(c, s, ROLLBACK_STEPS + 1).disk.generation == slot
  {
    var sw := s.proc.switching;
    var t, n := s, 0;
    while n < ROLLBACK_STEPS
      invariant n <= ROLLBACK_STEPS && t == Steps(c, s, n) && t.proc == Unwind(sw, n)
      invariant Kept(c, sw.generationCreated, t.disk)
      invariant n == ROLLBACK_STEPS && sw.generationCreated ==> t.disk.generation.Absent?
    {
      RollbackStepKeepsSlot(c, sw, n, t.disk);
      t, n := Advance(c, t), n + 1;
    }
  }

  /** When a first invocation raises anywhere from the planned SWITCHING write to the completion, its handler
      removes the generation if this invocation made it and keeps the one it found. */
  lemma RaisedRefreshFreesSlot(c: Context, s: State, n: nat)
    requires Initial(c, s)
    requires var p := Steps(c, s.(proc := Begin), n).proc;
             p.Journalling? || p.Switching? || p.Bind? || p.Commit? || p.Recheck? || p.Publish?
    ensures var raised := Apply(c, Steps(c, s.(proc := Begin), n), Raise);
            Steps(c, raised, ROLLBACK_STEPS + 1).disk.generation == s.disk.generation
  {
    StepsKnowSlot(c, s.(proc := Begin), n);
    UnwindFreesSlot(c, Apply(c, Steps(c, s.(proc := Begin), n), Raise), s.disk.generation);
  }

  // ----- From the condition to a COMMITTED return ----------------------------------------------------------

  lemma ReachesBackup(c: Context, s: State)
    requires s.proc.Prepare? && SlotFree(c, s.disk)
    ensures var t := Steps(c, s, 4); t.proc.Backup? && t.proc.k == 0
  {
    var s1 := Advance(c, s);
    assert s1.proc.Build? && Steps(c, s, 1) == s1;
    var s2 := Advance(c, s1);
    assert s2.proc.Stage? && Steps(c, s, 2) == s2;
    var s3 := Advance(c, s2);
    assert s3.proc.Copy? && Steps(c, s, 3) == s3;
    assert Steps(c, s, 4) == Advance(c, s3);
  }

  lemma BackupReachesSwitch(c: Context, s: State)
    requires s.proc.Backup? && s.proc.k == 0
    ensures var t := Steps(c, s, 11); t.proc.Switching? && t.proc.k == 0
  {
    var t, n := s, 0;
    while n < BACKUP_STEPS
      invariant n <= BACKUP_STEPS && t == Steps(c, s, n) && t.proc.Backup? && t.proc.k == n
    {
      t, n := Advance(c, t), n + 1;
    }
    var t1 := Advance(c, t);
    assert t1.proc.Plan? && Steps(c, s, 9) == t1;
    var t2 := Advance(c, t1);
    assert t2.proc.Journalling? && Steps(c, s, 10) == t2;
    assert Steps(c, s, 11) == Advance(c, t2);
  }

  lemma SwitchReachesRecheck(c: Context, s: State)
    requires s.proc.Switching? && s.proc.k == 0
    ensures Steps(c, s, SWITCH_STEPS + 3).proc.Recheck?
  {
    var t, n := s, 0;
    while n < SWITCH_STEPS
      invariant n <= SWITCH_STEPS && t == Steps(c, s, n) && t.proc.Switching? && t.proc.k == n
    {
      t, n := Advance(c, t), n + 1;
    }
    ReachesRecheck(c, t);
    StepsAdd(c, s, SWITCH_STEPS, 3);
  }

  const PREPARE_TO_RECHECK: nat := 25

  lemma PrepareReachesRecheck(c: Context, s: State)
    requires s.proc.Prepare? && SlotFree(c, s.disk)
    ensures Steps(c, s, PREPARE_TO_RECHECK).proc.Recheck?
  {
    ReachesBackup(c, s);
    var s1 := Steps(c, s, 4);
    BackupReachesSwitch(c, s1);
    var s2 := Steps(c, s1, 11);
    SwitchReachesRecheck(c, s2);
    StepsAdd(c, s, 4, 11);
    StepsAdd(c, s, 15, SWITCH_STEPS + 3);
  }

  /** The journalled rollback ends with the slot free. */
  lemma ResumeReachesPrepare(c: Context, s: State)
    requires s.proc.Resume? && s.proc.k == 0 && Kept(c, s.proc.journal.generationCreated, s.disk)
    ensures var t := Steps(c, s, ROLLBACK_STEPS + 1);
            t.proc.Prepare? && SlotFree(c, t.disk) && t.disk.journal == Some(s.proc.journal.(phase := ROLLED_BACK))
  {
    var j := s.proc.journal;
    var t, n := s, 0;
    while n < ROLLBACK_STEPS
      invariant n <= ROLLBACK_STEPS && t == Steps(c, s, n) && t.proc == Resume(j, n)
      invariant Kept(c, j.generationCreated, t.disk)
      invariant n == ROLLBACK_STEPS && j.generationCreated ==> t.disk.generation.Absent?
    {
      RollbackStepKeepsSlot(c, j, n, t.disk);
      t, n := Advance(c, t), n + 1;
    }
  }

  lemma FinishReachesRecheck(c: Context, t: State) returns (n: nat)
    requires t.proc.Begin? && CanFinish(c, t.disk) && SlotInv(c, t)
    ensures Steps(c, t, n).proc.Recheck?
  {
    var t1 := Advance(c, t);
    assert t1.proc.Attested? && Steps(c, t, 1) == t1;
    var t2 := Advance(c, t1);
    assert Steps(c, t, 2) == t2;
    if Early(t.disk) {
      PrepareReachesRecheck(c, t2);
      StepsAdd(c, t, 2, PREPARE_TO_RECHECK);
      n := 2 + PREPARE_TO_RECHECK;
    } else {
      ResumeReachesPrepare(c, t2);
      var t3 := Steps(c, t2, ROLLBACK_STEPS + 1);
      PrepareReachesRecheck(c, t3);
      StepsAdd(c, t2, ROLLBACK_STEPS + 1, PREPARE_TO_RECHECK);
      StepsAdd(c, t, 2, ROLLBACK_STEPS + 1 + PREPARE_TO_RECHECK);
      n := 2 + ROLLBACK_STEPS + 1 + PREPARE_TO_RECHECK;
    }
  }

  // ----- Without it nothing ever returns -------------------------------------------------------------------

  /** An accepted COMMITTED journal and an accepted entry contradict each other. */
  lemma CommittedIsRefused(h: Handoff, j: Journal, d: Disk)
    requires h.installedSha != h.requiredSha && AttestPre(h, d.live)
    ensures !AttestCommitted(h, j, d)
  {
  }

  lemma {:induction false} CommittedIsFrozen(c: Context, t: State, later: seq<Event>)
    requires t.proc.Idle? && IsCommitted(t.disk) && c.handoff.installedSha != c.handoff.requiredSha
    ensures var r := Run(c, t, later); r.disk == t.disk && (r.proc.Idle? || r.proc.Begin? || (r.proc.Attested? && AttestPre(c.handoff, r.disk.live)))
  {
    if later != [] {
      var last := |later| - 1;
      CommittedIsFrozen(c, t, later[..last]);
      var r := Run(c, t, later[..last]);
      if r.proc.Attested? {
        CommittedIsRefused(c.handoff, r.disk.journal.value, r.disk);
      }
    }
  }

  /** With a torn or foreign generation in the slot and no rollback journalled, every build raises. */
  lemma {:induction false} BlockedSlotIsFrozen(c: Context, t: State, later: seq<Event>)
    requires t.proc.Idle? && Early(t.disk) && !SlotFree(c, t.disk)
    ensures var r := Run(c, t, later);
            && r.disk.live == t.disk.live && r.disk.generation == t.disk.generation && Early(r.disk)
            && (r.proc.Idle? || r.proc.Begin? || r.proc.Attested? || r.proc.Prepare? || r.proc.Build?)
  {
    if later != [] {
      BlockedSlotIsFrozen(c, t, later[..|later| - 1]);
    }
  }

  /** A stopped refresh can be brought to a COMMITTED return by later invocations if and only if the live
      set still passes the entry attestation, the journal is not COMMITTED, and under an early journal the
      generation slot is free. */
  lemma {:induction false} RecoversExactly(c: Context, s: State, events: seq<Event>)
    requires Initial(c, s) && c.handoff.installedSha != c.handoff.requiredSha
    requires Run(c, s, events).proc.Idle?
    ensures (exists later :: Run(c, Run(c, s, events), later).proc.Returned?) <==> CanFinish(c, Run(c, s, events).disk)
  {
    var t := Run(c, s, events);
    if CanFinish(c, t.disk) {
      RunKeepsSlot(c, s, events);
      RunKeepsInv(c, s, events);
      RunAppend(c, t, [], Start);
      var begun := Run(c, t, [] + [Start]);
      var n := FinishReachesRecheck(c, begun);
      ReachesReturn(c, begun, n);
      var later := StepsAreRuns(c, t, [] + [Start], n + 2);
      assert Run(c, t, later).proc.Returned?;
    } else {
      forall later ensures !Run(c, t, later).proc.Returned? {
        if !AttestPre(c.handoff, t.disk.live) {
          UnattestedIsFrozen(c, t, later);
        } else if IsCommitted(t.disk) {
          CommittedIsFrozen(c, t, later);
        } else {
          BlockedSlotIsFrozen(c, t, later);
        }
      }
    }
  }
}
