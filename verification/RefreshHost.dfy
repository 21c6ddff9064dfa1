/** The refresh transaction as the program runs it: a host whose files change in place.

    The methods are specified by the step functions of `RuntimeRefresh`.  The parameter `raises` numbers the
    point at which the invocation raises; from 12 on it does not.  Kills between steps are the business of the machine in that module. */
module RefreshHost {
  import opened Prelude
  import opened RuntimeRefresh

  class Host {
    var live: Live
    var journal: Option<Journal>
    var backups: Backups
    var previousRepository: Stored<Tree>
    var failed: Stored<Tree>
    var generation: Stored<Generation>
    var stage: Stored<Tree>
    var completion: bool

    ghost function View(): Disk
      reads this
    {
      Disk(live, journal, backups, previousRepository, failed, generation, stage, completion)
    }

    /** No switch is journalled, or the journal and the backups can bring back `base`. */
    ghost predicate Protects(base: Live)
      reads this
    {
      if Early(View()) then live == base && previousRepository.Absent?
      else Recoverable(journal.value, base, View())
    }

    /** `_rollback_switch`. */
    method RollbackSwitch(j: Journal)
      modifies this
      ensures View() == Rollback(j, ROLLBACK_STEPS, old(View()))
    {
      ghost var d0 := View();
      live := live.(pointer := Absent);
      if !j.previousPointer.Absent? {
        live := live.(pointer := j.previousPointer);
      }
      ghost var d2 := View();
      assert d2 == Rollback(j, 2, d0) by { assert Rollback(j, 1, d0) == RollbackStep(j, 0, d0); }
      RestoreBoundary(j);
      ghost var d6 := View();
      assert d6 == Rollback(j, 6, d0) by { RollbackFrom(j, 2, 4, d0); }
      RestoreFiles(j);
      assert View() == Rollback(j, 10, d0) by { RollbackFrom(j, 6, 4, d0); }
      if j.generationCreated && !generation.Absent? {
        generation := Absent;
      }
      assert Rollback(j, 11, d0) == RollbackStep(j, 10, Rollback(j, 10, d0));
    }

    method RestoreBoundary(j: Journal)
      modifies this
      ensures View() == RollbackRange(j, 2, 4, old(View()))
    {
      ghost var d2 := View();
      var removesBoundary := !j.repositoryWasPresent || (j.previousRepository && !previousRepository.Absent?);
      if removesBoundary && !live.boundary.Absent? {
        if !failed.Absent? {
          failed := Absent;
        }
        failed, live := live.boundary, live.(boundary := Absent);
      }
      if j.previousRepository && !previousRepository.Absent? {
        live, previousRepository := live.(boundary := previousRepository), Absent;
      }
      assert RollbackRange(j, 2, 1, d2) == RollbackStep(j, 2, d2);
      assert RollbackRange(j, 2, 2, d2) == RollbackStep(j, 3, RollbackStep(j, 2, d2));
      assert RollbackRange(j, 2, 3, d2) == RollbackStep(j, 4, RollbackRange(j, 2, 2, d2));
    }

    method RestoreFiles(j: Journal)
      modifies this
      ensures View() == RollbackRange(j, 6, 4, old(View()))
    {
      ghost var d6 := View();
      live := live.(runtime := Restore(live.runtime, j.previousRuntime, backups.runtime));
      assert View() == RollbackRange(j, 6, 1, d6);
      live := live.(environment := Restore(live.environment, j.previousEnvironment, backups.environment));
      assert View() == RollbackRange(j, 6, 2, d6);
      live := live.(config := Restore(live.config, j.previousConfig, backups.config));
      assert View() == RollbackRange(j, 6, 3, d6);
      live := live.(generationFile := Restore(live.generationFile, j.previousGenerationFile, backups.generationFile));
    }

    /** Roll back what `j` journalled and record that: the live set is `base` again. */
    method UndoSwitch(j: Journal, ghost base: Live)
      requires Recoverable(j, base, View())
      modifies this
      ensures live == base && journal == Some(j.(phase := ROLLED_BACK)) && Protects(base)
      ensures completion == old(completion)
      ensures generation == if j.generationCreated then Absent else old(generation)
    {
      ghost var d := View();
      RollbackSwitch(j);
      RollbackRestores(j, ROLLBACK_STEPS, base, d);
      RollbackFrame(j, ROLLBACK_STEPS, d);
      journal := Some(j.(phase := ROLLED_BACK));
    }

    /** Place the generation, stage the boundary and take the four backups.  Points 0 to 2 may raise. */
    method StageAndBackUp(c: Context, raises: nat) returns (switching: Option<Journal>)
      requires Protects(live) && Early(View())
      modifies this
      ensures live == old(live) && Early(View()) && previousRepository.Absent? && completion == old(completion)
      ensures switching.Some? <==> raises > 2 && (old(generation).Absent? || old(generation) == Whole(c.generation))
      ensures switching.Some? ==>
                && Recoverable(switching.value, live, View()) && switching.value.phase == SWITCHING
                && stage == Whole(c.generation.tree) && generation == Whole(c.generation)
                && switching.value.generationCreated == old(generation).Absent?
      ensures generation == old(generation) || (old(generation).Absent? && generation == Whole(c.generation))
      ensures journal.Some?
      ensures if raises == 0 || !(old(generation).Absent? || old(generation) == Whole(c.generation)) then journal.value.phase == PREPARED
              else journal.value.phase == STAGED && journal.value.generationCreated == old(generation).Absent?
    {
      switching := None;
      var created := PlaceGeneration(c, raises);
      if created.None? || raises == 1 {
        return;
      }
      stage := Whole(c.generation.tree);
      TakeBackups();
      if raises == 2 {
        return;
      }
      switching := Some(SwitchingJournal(created.value, live));
    }

    /** Build the generation into its slot, or accept the one that is there. */
    method PlaceGeneration(c: Context, raises: nat) returns (created: Option<bool>)
      modifies `journal, `generation
      ensures created.Some? <==> raises != 0 && (old(generation).Absent? || old(generation) == Whole(c.generation))
      ensures created.Some? ==>
                created.value == old(generation).Absent? && generation == Whole(c.generation) && journal == Some(StagedJournal(created.value))
      ensures created.None? ==> generation == old(generation) && journal == Some(Prepared())
    {
      journal := Some(Prepared());
      if raises == 0 {
        return None;
      }
      var absent := generation.Absent?;
      if absent {
        generation := Whole(c.generation);
      } else if generation != Whole(c.generation) {
        return None;
      }
      journal := Some(StagedJournal(absent));
      return Some(absent);
    }

    method TakeBackups()
      modifies `backups
      ensures BackupsTaken(BACKUP_STEPS, View())
    {
      if !live.runtime.Absent? {
        backups := backups.(runtime := live.runtime);
      }
      if !live.environment.Absent? {
        backups := backups.(environment := live.environment);
      }
      if !live.config.Absent? {
        backups := backups.(config := live.config);
      }
      if !live.generationFile.Absent? {
        backups := backups.(generationFile := live.generationFile);
      }
    }

    /** Replace the six locations; a step that raises, at points 4 to 9, leaves the rest undone. */
    method SwitchLive(c: Context, sw: Journal, raises: nat) returns (ok: bool)
      requires journal == Some(sw)
      requires Recoverable(sw, live, View()) && previousRepository.Absent? && stage == Whole(c.generation.tree)
      modifies this
      ensures Recoverable(sw, old(live), View()) && journal == old(journal) && completion == old(completion)
      ensures generation == old(generation) && (ok ==> live == New(c))
      ensures ok <==> !(4 <= raises <= 9)
      ensures !ok && raises > 4 ==> live == Mixed(c, raises - 3, old(live))
    {
      ok := SwitchBoundary(c, sw, raises);
      if ok {
        ok := SwitchFiles(c, raises);
      }
    }

    method SwitchBoundary(c: Context, sw: Journal, raises: nat) returns (ok: bool)
      requires Recoverable(sw, live, View()) && previousRepository.Absent? && stage == Whole(c.generation.tree)
      modifies this
      ensures Recoverable(sw, old(live), View()) && journal == old(journal) && completion == old(completion)
      ensures generation == old(generation) && ok == (raises != 4)
      ensures ok ==> live == old(live).(boundary := Whole(c.generation.tree)) && previousRepository == old(live).boundary
    {
      ok := false;
      if !live.boundary.Absent? {
        previousRepository, live := live.boundary, live.(boundary := Absent);
      }
      if raises == 4 {
        return;
      }
      live, stage := live.(boundary := stage), Absent;
      ok := true;
    }

    /** The five files after the boundary, the pointer last. */
    method SwitchFiles(c: Context, raises: nat) returns (ok: bool)
      requires live.boundary == Whole(c.generation.tree)
      modifies `live
      ensures ok <==> !(5 <= raises <= 9)
      ensures live == if ok then New(c) else Mixed(c, raises - 3, old(live))
    {
      ok := false;
      if raises == 5 {
        return;
      }
      live := live.(runtime := Whole(NewRuntime(c)));
      if raises == 6 {
        return;
      }
      live := live.(environment := Whole(c.environment));
      if raises == 7 {
        return;
      }
      live := live.(config := Whole(c.config));
      if raises == 8 {
        return;
      }
      live := live.(generationFile := Whole(c.generation));
      if raises == 9 {
        return;
      }
      live := live.(pointer := Whole(c.handoff.requiredSha));
      ok := true;
    }

    /** From the SWITCHING write to the completion, inside the exception handler.  Points 3 to 11 may raise. */
    method SwitchAndCommit(c: Context, sw: Journal, raises: nat) returns (committed: bool)
      requires ValidContext(c) && raises > 2
      requires Recoverable(sw, live, View()) && previousRepository.Absent? && stage == Whole(c.generation.tree)
      requires generation == Whole(c.generation)
      modifies this
      ensures committed <==> raises > 11
      ensures committed ==> live == New(c) && completion && InCommitted(c, View())
      ensures !committed ==> live == old(live) && Protects(live) && completion == old(completion)
      ensures !committed ==> journal == Some(sw.(phase := ROLLED_BACK))
      ensures !committed ==> generation == if sw.generationCreated then Absent else old(generation)
    {
      ghost var base := live;
      committed := false;
      var ok := false;
      if raises != 3 {
        journal := Some(sw);
        ok := SwitchLive(c, sw, raises);
      }
      if ok {
        committed := Commit(c, sw, raises);
      }
      if !committed {
        UndoSwitch(sw, base);
      }
    }

    /** Bind the artifacts, commit, attest what was committed and publish the completion. */
    method Commit(c: Context, sw: Journal, raises: nat) returns (committed: bool)
      requires ValidContext(c) && live == New(c) && generation == Whole(c.generation)
      modifies `journal, `completion
      ensures committed <==> raises != 10 && raises != 11
      ensures committed ==> completion && InCommitted(c, View())
      ensures !committed ==> completion == old(completion) && journal.Some? && journal.value.bound == Some(NewBindings(c))
      ensures raises == 10 ==> journal.value.phase == SWITCHED
      ensures raises == 11 ==> journal.value.phase == COMMITTED
    {
      committed := false;
      journal := Some(sw.(phase := SWITCHED, bound := Some(NewBindings(c))));
      if raises == 10 {
        return;
      }
      var j := sw.(phase := COMMITTED, bound := Some(NewBindings(c)));
      journal := Some(j);
      AttestCommittedExactly(c, j, View());
      if !AttestCommitted(c.handoff, j, Disk(live, journal, backups, previousRepository, failed, generation, stage, completion))
         || raises == 11
      {
        return;
      }
      completion, committed := true, true;
      AttestCommittedExactly(c, j, View());
    }

    /** What the slot holds once a journalled rollback is finished. */
    ghost function SlotAtBuild(): Stored<Generation>
      reads this
    {
      if !Early(View()) && journal.value.generationCreated then Absent else generation
    }

    /** `refresh` with `apply`, raising at point `raises` if it gets there.  It either commits with all six
        locations new and the completion published, or raises with the protected live set in place or nothing
        changed; and it says exactly when it commits. */
    method Refresh(c: Context, ghost base: Live, raises: nat) returns (committed: bool)
      requires ValidContext(c) && Protects(base)
      requires journal.Some? && journal.value.phase in {SWITCHED, COMMITTED} ==> journal.value.bound == Some(NewBindings(c))
      modifies this
      ensures committed ==> live == New(c) && completion && InCommitted(c, View())
      ensures !committed ==> live == base || live == old(live)
      ensures !AttestPre(c.handoff, old(live)) ==> !committed && View() == old(View())
      ensures AttestPre(c.handoff, old(live)) && old(journal.Some? && journal.value.phase == COMMITTED) ==>
                (committed <==> AttestCommitted(c.handoff, old(journal.value), old(View())))
      ensures AttestPre(c.handoff, old(live)) && !old(journal.Some? && journal.value.phase == COMMITTED) ==>
                (committed <==> raises > 11 && old(SlotAtBuild().Absent? || SlotAtBuild() == Whole(c.generation)))
    {
      committed := false;
      if !AttestPre(c.handoff, live) {
        return;
      }
      if journal.Some? && journal.value.phase == COMMITTED {
        committed := Recommit(c);
        return;
      }
      if journal.Some? && journal.value.phase in {SWITCHING, SWITCHED} {
        UndoSwitch(journal.value, base);
      }
      var switching := StageAndBackUp(c, raises);
      if switching.None? {
        return;
      }
      committed := SwitchAndCommit(c, switching.value, raises);
    }

    /** Re-entry under a COMMITTED journal. */
    method Recommit(c: Context) returns (committed: bool)
      requires ValidContext(c) && journal.Some? && journal.value.phase == COMMITTED
      requires journal.value.bound == Some(NewBindings(c))
      modifies `completion
      ensures committed <==> AttestCommitted(c.handoff, journal.value, old(View()))
      ensures committed ==> live == New(c) && completion && InCommitted(c, View())
    {
      AttestCommittedExactly(c, journal.value, View());
      committed := AttestCommitted(c.handoff, journal.value,
        Disk(live, journal, backups, previousRepository, failed, generation, stage, completion));
      if committed {
        completion := true;
        AttestCommittedExactly(c, journal.value, View());
      }
    }
  }

  /** `n` rollback steps starting with step `k`. */
  ghost function RollbackRange(j: Journal, k: nat, n: nat, d: Disk): Disk
    requires k + n <= ROLLBACK_STEPS
  {
    if n == 0 then d else RollbackStep(j, k + n - 1, RollbackRange(j, k, n - 1, d))
  }

  lemma {:induction false} RollbackFrom(j: Journal, k: nat, n: nat, d: Disk)
    requires k + n <= ROLLBACK_STEPS
    ensures RollbackRange(j, k, n, Rollback(j, k, d)) == Rollback(j, k + n, d)
  {
    if n > 0 {
      RollbackFrom(j, k, n - 1, d);
    }
  }

  lemma {:induction false} RollbackFrame(j: Journal, k: nat, d: Disk)
    requires k <= ROLLBACK_STEPS
    ensures Rollback(j, k, d).journal == d.journal && Rollback(j, k, d).backups == d.backups
    ensures Rollback(j, k, d).completion == d.completion
    ensures Rollback(j, k, d).generation ==
              if !j.generationCreated || k <= 10 then d.generation
              else if k == 11 && !d.generation.Absent? then Torn else Absent
  {
    if k > 0 {
      RollbackFrame(j, k - 1, d);
    }
  }
}
