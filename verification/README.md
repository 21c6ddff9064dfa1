# TrainCapsule deployment and controller: a verified model

The project models the parts of TrainCapsule where a crash, an exception or a hostile input could leave the
system half changed, and proves what holds over every run of them:

- `RuntimeRefresh.dfy`, `RefreshRecovery.dfy`, `RefreshHost.dfy`: the runtime refresh transaction. The first is a machine whose steps
  are single disk mutations; a kill or an exception may strike between any two of them, any number of times.
  The second says exactly when an interrupted refresh can still be finished.
  The third is the same transaction as methods that change a host in place.
- `InstallJournal.dfy`, `InstalledTree.dfy`, `PrivilegedInstaller.dfy`: the resumable privileged installer: its
  journal, the trees on which it can finish, its rollback and its systemd units.
- `Autopilot.dfy`, `FeatureLedger.dfy`, `VerifiedRepair.dfy`: retry budgets, terminal blocks and verified
  self-repair of the controller.
- `ObjectStream.dfy`, `BatchReader.dfy`: the Git object stream and the loops that read it.
- `StageTree.dfy`: a staging directory filled file by file, shared by the next two.
- `SnapshotConfig.dfy`, `RepositorySnapshot.dfy`, `SnapshotBuilder.dfy`: the repository snapshot, its builder and
  its independent validator.
- `RuntimeDistribution.dfy`: validation and all-or-nothing extraction of the Python runtime.
- `GenerationInventory.dfy`: the generation that a refresh builds and attests.
- `TokenHandoff.dfy`, `TokenPair.dfy`, `TokenHost.dfy`: the token refresher and promoter as interleaved processes,
  when the installed pair belongs together, and the two as methods on files that change in place.
- `CompletionAudit.dfy`, `ContextBudget.dfy`: the completion decision and the text budget.
- `Prelude.dfy`, `Text.dfy`, `Decimals.dfy`: small shared definitions.

Digests are injective (`Prelude.Digest` carries its preimage), SHA-1 is an arbitrary function, zlib is a
constructor with its inverse, `os.replace` is one atomic step, and nobody else writes to the disk. Git's own path
check, which `git read-tree` and `git reset` apply to every tracked path, is a parameter of which only one thing
is assumed: it never accepts a path with a `.git` component.

## What the proofs found

Several promised properties are false of the code. Each is kept as coded and pinned down.

- Refresh binds its `switching` variable before it writes the SWITCHING journal. An exception during that write
  starts a rollback under a STAGED journal, and a kill right after the rollback unlinks `current` loses the
  pointer. `RuntimeRefresh.EarlyKeepsAllExactly` shows that the live set survives every early journal exactly
  when there was no pointer or the refresh cannot reach the switch.
- A stopped refresh is not always finished by invoking it again. `RefreshRecovery.RecoversExactly`: it can be
  exactly when the live set still passes the entry attestation, the journal is not COMMITTED, and under an early
  journal the generation slot is empty or holds the right generation. So a kill after the first switch step, a
  kill of the exception rollback under COMMITTED, and a kill while that rollback removes the generation under a
  STAGED journal are all permanent; after a kill between the COMMITTED write and the completion record, the record
  never appears.
- Rollback of the installer sets the repository boundary to mode 0700 even if it never journalled it.
  `InstallJournal.RollbackIsExact` and `InstallJournal.BoundaryRestoredExactly` say when that is harmless, for one
  rollback and for any number of attempts; `RaisesBeforeDirectories` is an attempt that loses the mode.
- An exception or a kill between the rename of the runtime and its journal write leaves a runtime that no rollback
  removes and every later attempt refuses. `PrivilegedInstaller.Installer.Rollback` restores everything exactly
  when there is no such runtime; `RaisesInWindow` is an attempt that leaves one.
- A rollback cut short while it removes the runtime leaves a runtime that is recorded but no longer whole. The next
  attempt raises on it, although the first tree is installable, and its own rollback finishes the removal
  (`CutInRemoval`, `AttemptAfterCut`); such a runtime is one of the obstacles that `Installer.Ready` excludes.
- A committed journal is only attested on re-entry. If the rollback of a committed installation is cut short, `apply`
  raises and changes nothing, and only `rollback` itself can go on (`PrivilegedInstaller.Installer.Apply`).
- The installed metadata and token can come from different refreshes, after a crash between the two installs or after
  overlapping promotes (`TokenPair.CrashTearsTarget`); without either they belong together
  (`TokenPair.TargetPairBelongsTogether`).
- A refresh of readiness blocks a ready task whose dependencies have not passed, but leaves an approved packet approved,
  and a queue sync approves every task that has a packet and is in no queue. So a task can be selected before its
  dependencies have passed (`FeatureLedger.PacketOvertakesDependency`); `FeatureLedger.DispatchedBeforeDependencies`
  says that this happens only to tasks whose packet was already approved.
- The completion audit validates work before it cuts it to five items, so a kept item may depend on a dropped one;
  `CompletionAudit.CutKeepsDependencies` says exactly when none does.
- A crash after the consumption record and before the retry marker is removed leaves the repair signal up
  (`VerifiedRepair.CrashBeforeUnlinkKeepsSignal`).

## Model

| member | source | states |
|---|---|---|
| `RuntimeRefresh.RollbackRestores` | deployment/runtime_refresh.py:1029-1071 | from any disk whose journal and backups can recover the old live set, after k rollback steps exactly the first locations are back and the rest is still recoverable |
| `RuntimeRefresh.InterruptedRollbackRestores` | deployment/runtime_refresh.py:1006-1071 | a rollback killed and restarted at any points, any number of times, and then finished leaves all six live locations at their old values |
| `RuntimeRefresh.SwitchKeepsRecoverable` | deployment/runtime_refresh.py:1500-1532 | no prefix of the switch steps loses an old value: journal, backups and the moved boundary still recover all of them |
| `RuntimeRefresh.SwitchThenRollback` | deployment/runtime_refresh.py:1029-1071 | rollback after any prefix of the switch, with any interruptions, ends with the six pre-switch values |
| `RuntimeRefresh.RunKeepsInv` | deployment/runtime_refresh.py:1259-1581 | the transaction invariant holds after every sequence of starts, steps, exceptions and kills |
| `RuntimeRefresh.EarlyJournalIsUnswitched` | deployment/runtime_refresh.py:1377-1569 | in every run, an absent, PREPARED, STAGED or ROLLED_BACK journal means nothing is switched; only the pointer may be missing |
| `RuntimeRefresh.MixedStatesAreJournalled` | deployment/runtime_refresh.py:1377-1569 | in every run, a live set that is neither old nor new exists only from SWITCHING on, and under SWITCHED or COMMITTED only once a rollback has begun |
| `RuntimeRefresh.CommittedReturnIsComplete` | deployment/runtime_refresh.py:1555-1581 | in every run, a normal COMMITTED return means all six locations are new, the disk passes the committed attestation and the completion record exists |
| `RuntimeRefresh.PublishedIsAttested` | deployment/runtime_refresh.py:1558-1563 | in every run, nothing is published and no invocation returns unless the journal is COMMITTED and the disk passes the committed attestation |
| `RuntimeRefresh.AttestCommittedBinds` | deployment/runtime_refresh.py:1074-1152 | whatever the journal binds: accepted if and only if the disk holds exactly the bound artifacts in their places, the bound runtime manifest names the others, and everything is for the required main |
| `RuntimeRefresh.AttestCommittedExactly` | deployment/runtime_refresh.py:1538-1560 | under the bindings that a switch writes, exactly the complete new installation is accepted |
| `RuntimeRefresh.FailedRecheckRollsBack` | deployment/runtime_refresh.py:1560-1568 | a disk that fails the committed attestation, whoever changed it, is not published but rolled back |
| `RuntimeRefresh.RaisedSwitchIsUndone` | deployment/runtime_refresh.py:1564-1568 | in every run, an exception at any point from the SWITCHING write to the completion ends, once the handler has run, with the protected live set and a ROLLED_BACK journal |
| `RuntimeRefresh.JournalIsAhead` | deployment/runtime_refresh.py:1400-1559 | in every run the journal is written ahead: PREPARED before the build, STAGED with the ownership of the generation before the backups, SWITCHING before the first switch step, then SWITCHED and COMMITTED |
| `RuntimeRefresh.ReachableRollbackRestores` | deployment/runtime_refresh.py:1396-1399 | from every reachable journalled switch, finishing the rollback, however interrupted, restores the protected live set |
| `RuntimeRefresh.UnattestedIsFrozen` | deployment/runtime_refresh.py:1286-1288 | once the live set fails the entry attestation, no later run of invocations changes anything on disk |
| `RuntimeRefresh.AttestPreExactly` | deployment/runtime_refresh.py:1155-1208 | a manifest that names a boundary, an environment and a configuration lets in exactly that installation, and only under a handoff for its own main |
| `RuntimeRefresh.AttestPrePins` | deployment/runtime_refresh.py:1178-1196 | one handoff never lets in two installations: boundary, runtime manifest, environment and configuration are all pinned |
| `RuntimeRefresh.EditedHostIsFrozen` | deployment/runtime_refresh.py:1178-1196 | if the installation was attested, a stopped host on which any of the four locations is another one never changes again and no invocation returns |
| `RuntimeRefresh.NextRefreshAcceptsExactly` | deployment/runtime_refresh.py:859-914 | what a refresh installs passes the entry attestation of the next handoff, and no other boundary, manifest, environment or configuration does |
| `RuntimeRefresh.SwitchedFailsAttestation` | deployment/runtime_refresh.py:1286-1288 | with different identities, every state after a switch step and before a rollback fails the entry attestation |
| `RuntimeRefresh.KilledSwitchIsFrozen` | deployment/runtime_refresh.py:1286-1399 | a kill in such a state is permanent: the disk never changes again and no invocation returns; `RefreshRecovery.RecoversExactly` has the exact condition |
| `RefreshRecovery.RunKeepsSlot` | deployment/runtime_refresh.py:1421-1439 | in every run, a journalled switch that did not create its generation still has it in the slot |
| `RefreshRecovery.RaisedRefreshFreesSlot` | deployment/runtime_refresh.py:1068-1071 | when a first invocation raises anywhere from the SWITCHING write on, the generation slot ends as it was found: emptied if this invocation filled it, kept otherwise |
| `RefreshRecovery.ResumeReachesPrepare` | deployment/runtime_refresh.py:1396-1407 | the journalled rollback, undisturbed, ends with a ROLLED_BACK journal and the slot free for the next build |
| `RefreshRecovery.CommittedIsFrozen` | deployment/runtime_refresh.py:1388-1395 | with different identities, a stopped refresh under COMMITTED never changes the disk again, even once the live set passes attestation |
| `RefreshRecovery.BlockedSlotIsFrozen` | deployment/runtime_refresh.py:1421-1434 | with a torn or foreign generation under an early journal, no later invocation gets past the build |
| `RefreshRecovery.RecoversExactly` | deployment/runtime_refresh.py:1286-1434 | from every reachable stopped state, some later invocations return if and only if the live set passes the entry attestation, the journal is not COMMITTED, and under an early journal the slot is free |
| `RuntimeRefresh.ResumeOnlyFinishesRollbacks` | deployment/runtime_refresh.py:1381-1399 | a re-entry that reaches the journalled rollback finds an untouched live set or an interrupted rollback |
| `RuntimeRefresh.CommittedReentryRaises` | deployment/runtime_refresh.py:1388-1395 | with different identities, no re-entry ever accepts a COMMITTED journal |
| `RuntimeRefresh.PointerLossNeedsRaise` | deployment/runtime_refresh.py:1500-1512 | an early journal disagrees with the live set only after an exception during the SWITCHING write |
| `RuntimeRefresh.PointerCanBeLost` | deployment/runtime_refresh.py:1564-1568 | for every refresh that can switch and has a pointer, a sequence of events that loses the pointer under STAGED |
| `RuntimeRefresh.EarlyKeepsAllExactly` | deployment/runtime_refresh.py:1500-1568 | every early journal keeps all six locations if and only if there was no pointer or the refresh cannot reach the switch |
| `RuntimeRefresh.UndisturbedRefreshCommits` | deployment/runtime_refresh.py:1400-1581 | an undisturbed invocation whose handoff is current ends COMMITTED and attested with all six locations new |
| `RefreshHost.Host.RollbackSwitch` | deployment/runtime_refresh.py:1029-1071 | the in-place rollback equals the twelve specified steps on the old disk |
| `RefreshHost.Host.UndoSwitch` | deployment/runtime_refresh.py:1396-1399 | rolls back a recoverable switch and journals it: the live set is the protected one again, and a generation that the switch created is gone |
| `RefreshHost.Host.StageAndBackUp` | deployment/runtime_refresh.py:1400-1511 | changes no live location; succeeds if and only if nothing raises and the slot is empty or holds the right generation, and then its journal and backups can recover the live set |
| `RefreshHost.Host.SwitchLive` | deployment/runtime_refresh.py:1515-1532 | whichever step raises, the earlier ones are done, the later ones are not and the old live set stays recoverable; without an exception the live set is the new one |
| `RefreshHost.Host.SwitchAndCommit` | deployment/runtime_refresh.py:1512-1568 | commits, attested, with everything new and the completion published if and only if nothing raises; else it undoes everything, the new generation included |
| `RefreshHost.Host.Refresh` | deployment/runtime_refresh.py:1259-1581 | with rollbacks that finish: commits completely, or raises with the protected or unchanged live set; says exactly when it commits; a failed entry attestation writes nothing (rollbacks that raise or are killed are in `RuntimeRefresh`) |
| `InstallJournal.PrepareKeeps` | deployment/privileged_installer.py:2136-2158 | saving an unjournalled target captures its first-attempt state and never overwrites a backup |
| `InstallJournal.WriteKeeps` | deployment/privileged_installer.py:2725-2740 | writing a journalled target keeps every difference accounted for and undoable |
| `InstallJournal.SnapshotRecordKeeps` | deployment/privileged_installer.py:2048-2134 | recording an absent snapshot entry keeps the journal sound |
| `InstallJournal.RollbackIsExact` | deployment/privileged_installer.py:1628-1630 | a rolled-back tree is the original one if and only if the boundary was journalled, not a directory, or already 0700 |
| `InstallJournal.BoundaryRestoredExactly` | deployment/privileged_installer.py:1628-1630 | after any attempts the boundary is as at first if and only if every rollback had journalled it, it was not a directory, or its mode was 0700 |
| `InstallJournal.RestoredUnlessOrphaned` | deployment/privileged_installer.py:1669-1671 | a settled tree is the original one, apart from the STOP marker, if and only if no runtime is left that was not there before |
| `InstallJournal.RestoredMeans` | deployment/privileged_installer.py:1608-1756 | restored means the same node at every path, except at new paths that are the STOP marker or lead to it |
| `InstallJournal.SnapshotDirectoryIsEmpty` | deployment/privileged_installer.py:1635-1647 | removing deeper recorded entries first leaves each recorded directory empty when it is reached |
| `InstallJournal.EntryCanGo` | deployment/privileged_installer.py:1635-1647 | each recorded entry, in its turn, is empty and its removal keeps everything else recoverable |
| `InstallJournal.AddedDirectoryIsEmpty` | deployment/privileged_installer.py:1710-1722 | an added directory is empty when rollback reaches it, unless it holds the STOP marker |
| `InstallJournal.EverythingSettled` | deployment/privileged_installer.py:1608-1756 | once entries, files, runtime and directories are settled, the whole tree is the original one apart from the STOP marker, an unrecorded runtime and directories made for them |
| `InstallJournal.AttemptsCompose` | deployment/privileged_installer.py:1527-1564 | one more failed and rolled-back attempt keeps the tree of the first attempt, with the boundary at 0700 exactly if some rollback had not journalled it |
| `InstallJournal.BackupsAreOriginal` | deployment/privileged_installer.py:2150-2156 | after any attempts every backup holds the bytes that the first attempt found |
| `InstallJournal.SortDeepestFirst` | deployment/privileged_installer.py:1635-1639 | the removal order lists exactly the recorded entries, no entry after a shallower one |
| `InstalledTree.InstalledIsUnique` | deployment/privileged_installer.py:1593-1606 | specification and first tree determine the installed tree, so every way of reaching it ends alike |
| `InstalledTree.InstalledMeans` | deployment/privileged_installer.py:1593-1606 | installed means every pinned directory and file, the manifest as 0444 root, every snapshot entry with its mode and bytes as root, and the kept or created STOP marker |
| `InstalledTree.NoStranger` | deployment/privileged_installer.py:2057-2065 | if the boundary held at most a manifest at first, whatever an attempt finds below it is the manifest or recorded |
| `InstalledTree.RecordedEntryMatches` | deployment/privileged_installer.py:2107-2115 | a recorded snapshot entry that an earlier attempt created has the right type and bytes, so replay accepts it |
| `InstalledTree.DirectoryFits` | deployment/privileged_installer.py:1933-1939 | on an installable tree each managed directory finds its parent, in every attempt |
| `InstalledTree.InstalledNeedsInstallable` | deployment/privileged_installer.py:1933-2134 | every finished installation started from an installable tree |
| `InstalledTree.SmallestIsInstallable` | deployment/privileged_installer.py:1009-1170 | the layout facts can be met, and an empty root is installable |
| `PrivilegedInstaller.Installer.constructor` | deployment/privileged_installer.py:1475-1493 | a new installer has the given specification, units and tree, and starts consistent with nothing open |
| `PrivilegedInstaller.Installer.PrepareResource` | deployment/privileged_installer.py:2136-2158 | journals a target with its first-attempt metadata and keeps the transaction recoverable |
| `PrivilegedInstaller.Installer.EnsureDirectories` | deployment/privileged_installer.py:1933-1945 | wherever it stops the transaction is recoverable; if it finishes every directory is in place and journalled; short of a fault it stops only on a tree that is not ready |
| `PrivilegedInstaller.Installer.EnsureStopMarker` | deployment/privileged_installer.py:1947-1968 | creates a missing marker, keeps an existing one, and touches nothing else |
| `PrivilegedInstaller.Installer.PlaceRuntime` | deployment/privileged_installer.py:2015-2018 | the rename and the journal write that follows it; only a fault in between leaves the runtime unrecorded |
| `PrivilegedInstaller.Installer.InstallRuntime` | deployment/privileged_installer.py:2000-2028 | extracts and records the runtime, or accepts only what an earlier attempt recorded; short of a fault it stops only if the root was occupied, has no directory, or holds an unrecorded runtime |
| `PrivilegedInstaller.Installer.InstallFiles` | deployment/privileged_installer.py:1985-1998 | wherever it stops the transaction is recoverable; if it finishes every pinned file is in place; short of a fault it stops only on a tree that is not ready |
| `PrivilegedInstaller.Installer.InstallManifest` | deployment/privileged_installer.py:2048-2084 | goes on only if nothing but the manifest and recorded entries lies in the boundary, then opens it and places the manifest |
| `PrivilegedInstaller.Installer.InstallEntry` | deployment/privileged_installer.py:2089-2127 | journals the entry before it exists, and accepts an existing one only with the right type and bytes |
| `PrivilegedInstaller.Installer.InstallEntries` | deployment/privileged_installer.py:2085-2131 | journals each snapshot entry before creating it, resumes over earlier ones, and ends with the exact snapshot |
| `PrivilegedInstaller.Installer.InstallSnapshot` | deployment/privileged_installer.py:2048-2134 | ends with manifest, entries and a closed boundary, touching nothing else; short of a fault it stops only if the boundary held something else or an entry has no directory |
| `PrivilegedInstaller.Installer.InstallTree` | deployment/privileged_installer.py:1547-1552 | fresh or resumed from any recoverable state: finished means the one installed tree; short of a fault it finishes if the first tree is installable and no unrecorded runtime stands |
| `PrivilegedInstaller.Installer.OpenBoundary` | deployment/privileged_installer.py:1628-1634 | opens the boundary and every recorded directory, which the removal that follows requires |
| `PrivilegedInstaller.Installer.RemoveEntries` | deployment/privileged_installer.py:1635-1647 | removes every recorded snapshot entry |
| `PrivilegedInstaller.Installer.RestoreFiles` | deployment/privileged_installer.py:1650-1668 | every journalled file has its first bytes, mode and owner again, or is absent again |
| `PrivilegedInstaller.Installer.RemoveRuntime` | deployment/privileged_installer.py:1669-1709 | removes a recorded runtime; cut short in between it leaves a recorded runtime that is not whole, and everything is still recoverable |
| `PrivilegedInstaller.Installer.RestoreDirectories` | deployment/privileged_installer.py:1710-1722 | every path is as before the attempt, apart from the STOP marker, an unrecorded runtime and directories made for them |
| `PrivilegedInstaller.Installer.RollbackTree` | deployment/privileged_installer.py:1624-1722 | from any point of an installation, cut short at any entry, file or directory or inside the removal of the runtime it stays recoverable, and finished the tree is settled at the rollback target |
| `PrivilegedInstaller.Installer.Quiesce` | deployment/privileged_installer.py:2183-2201 | journals system effects, then stops managed units: if it finishes, none of them is active except possibly the controller |
| `PrivilegedInstaller.Installer.Prepare` | deployment/privileged_installer.py:1544-1553 | the tree changes only after every managed unit but the controller is stopped; finished means an attested tree |
| `PrivilegedInstaller.Installer.ReloadAndLeaveControllerStopped` | deployment/privileged_installer.py:2203-2214 | goes on only if the units were quiesced, and ends with the controller inactive and disabled |
| `PrivilegedInstaller.Installer.EnablePaths` | deployment/privileged_installer.py:2216-2236 | starts the authority first; if it finishes, the authority is stopped again unless it is a path unit, every path unit was started or restarted and is enabled and active, and the controller is as before |
| `PrivilegedInstaller.Installer.StopAdded` | deployment/privileged_installer.py:1617-1623 | if it finishes, every managed unit that was not active before is stopped, which the rollback of the tree requires |
| `PrivilegedInstaller.Installer.RestoreUnits` | deployment/privileged_installer.py:1723-1752 | every managed unit is back at its baseline, except that a baseline-active unit without a unit file ends inactive; every other baseline-active unit was started or restarted |
| `PrivilegedInstaller.Installer.OpenTransaction` | deployment/privileged_installer.py:1857-1912 | reopens an initialised transaction unchanged, or captures a baseline for every managed unit before anything is touched |
| `PrivilegedInstaller.Installer.Rollback` | deployment/privileged_installer.py:1608-1756 | complete: units at baseline and the tree settled, and restored if and only if no unrecorded runtime stood; cut short: journal unchanged and everything still recoverable, so it can be invoked again; undisturbed it is complete |
| `InstalledTree.InstalledIsAttested` | deployment/privileged_installer.py:1593-1606 | on an installable tree the installed tree passes attestation |
| `InstalledTree.AttestedIsInstalled` | deployment/privileged_installer.py:1593-1606 | with the STOP marker in place, whatever passes attestation is the one installed tree |
| `PrivilegedInstaller.Installer.Attest` | deployment/privileged_installer.py:1566-1591 | short of a fault it passes if and only if tree, reload mark, controller and path units are as committed |
| `PrivilegedInstaller.Installer.Install` | deployment/privileged_installer.py:1544-1560 | committed means attested tree, controller off and path units on, also when the process stops right after the COMMITTED write; short of a fault it finishes if and only if the first tree is installable and no unrecorded or partly removed runtime stands |
| `PrivilegedInstaller.Installer.Reattest` | deployment/privileged_installer.py:1542-1543 | a committed re-entry passes if and only if the installation is attested, short of a fault, and changes nothing |
| `PrivilegedInstaller.Installer.Apply` | deployment/privileged_installer.py:1527-1564 | from every consistent state, fresh, killed or cut short: it finishes only if ready and raises only by a fault or if not ready, where ready excludes unrecorded and partly removed runtimes; on a committed journal it only attests; a rolled-back attempt restores tree and units, a kill keeps first-attempt baselines and originals |
| `PrivilegedInstaller.Installer.Attempts` | deployment/privileged_installer.py:1527-1564 | after any number of attempts disturbed in any way: whenever nothing is open the tree is exactly the first one, with the boundary at 0700 if some rollback in the recorded history had not journalled it and apart from what rollback leaves behind; units are as at first (active ones without a unit file end inactive), a finished installation stands on the first tree, every backup holds its bytes, and the controller was never started |
| `PrivilegedInstaller.Installer.Rerun` | deployment/privileged_installer.py:1857-1912 | killed any number of times after journal writes, the COMMITTED one included, and then left alone, it finishes if and only if the first tree is installable and the controller was stopped; it ends in the one installed tree, with the originals and the unit baselines of before the first attempt in its journal |
| `PrivilegedInstaller.Installer.RerunThenRollback` | deployment/privileged_installer.py:1608-1756 | a rollback after such an installation restores the first tree, apart from the STOP marker, and the first unit states |
| `PrivilegedInstaller.Installer.RaisesBeforeDirectories` | deployment/privileged_installer.py:1628-1630 | an exception before the directories are journalled, then a complete rollback: exactly the boundary's mode is lost |
| `PrivilegedInstaller.Installer.RaisesInWindow` | deployment/privileged_installer.py:2015-2018 | an exception between rename and journal write, then a complete rollback: the runtime stays and the tree is no longer installable |
| `PrivilegedInstaller.Installer.CutInRemoval` | deployment/privileged_installer.py:1671-1709 | a rollback cut inside the removal of the runtime: the tree is installable and the journal knows the runtime, but an obstacle stands |
| `PrivilegedInstaller.Installer.AttemptAfterCut` | deployment/privileged_installer.py:2007-2013 | the undisturbed attempt that follows raises, and its own rollback finishes the removal |
| `PrivilegedInstaller.InstallSmallest` | deployment/privileged_installer.py:1527-1564 | the smallest installation onto an empty root finishes, however often it is killed |
| `Autopilot.RespecSpendsBudget` | tcfactory/autopilot.py:833-985 | each granted retry strictly lowers the remaining budget and each refusal is a terminal block |
| `Autopilot.RespecOutcomes` | tcfactory/autopilot.py:833-985 | which of the four outcomes each failure has, by its markers, packet and counters, and what becomes of status, packet and counters |
| `Text.LowerMeans` | tcfactory/autopilot.py:85-95 | upper-case letters become lower-case ones and nothing else changes |
| `Text.ContainsExactly` | tcfactory/autopilot.py:85-95 | a marker is found if and only if the text is something, the marker and something |
| `Autopilot.RetriesAreBounded` | tcfactory/autopilot.py:833-985 | from any counters, retries never exceed the budget, and more failures than that end terminally blocked |
| `Autopilot.FailuresCannotOutrunTheBound` | tcfactory/autopilot.py:61-66 | from zero counters no sequence of failure texts is granted more than (R+V)(I+1)+I retries |
| `Autopilot.WorstSpendsEverything` | tcfactory/autopilot.py:882-985 | alternating infrastructure failures with plain and value failures spends exactly the whole budget |
| `Autopilot.BoundIsReached` | tcfactory/autopilot.py:882-985 | the bound is tight: for all limits some sequence reaches it |
| `FeatureLedger.RefreshIsIdempotent` | tcfactory/feature_ledger.py:76-97 | one readiness pass settles every status |
| `FeatureLedger.RefreshSettles` | tcfactory/feature_ledger.py:76-97 | a blocked task is released if and only if each dependency is the id of a passed task, a ready one is blocked if and only if some is not; terminally blocked tasks, every other status and every other field stay |
| `FeatureLedger.ReadyHasPassedDependencies` | tcfactory/feature_ledger.py:76-97 | after a refresh, a task that is not terminally blocked is ready only if all its dependencies have passed and blocked only if some have not |
| `FeatureLedger.DispatchedBeforeDependencies` | tcfactory/feature_ledger.py:99-104 | the selected task has all its dependencies passed unless its packet was approved before the refresh and some had not passed |
| `FeatureLedger.PacketOvertakesDependency` | tcfactory/autopilot.py:478-489 | a sync approves a blocked task with a packet, and it is selected while its dependency still runs |
| `FeatureLedger.SyncDecides` | tcfactory/autopilot.py:431-489 | the final status of every task after a sync: by the first queue directory that holds it, else by its packet, else by its dependencies; nothing but the status changes |
| `FeatureLedger.ChangeIsVisible` | tcfactory/autopilot.py:481-489 | readiness never takes back what the sync changed |
| `FeatureLedger.Ledger.RefreshReadiness` | tcfactory/feature_ledger.py:76-97 | the in-place loop releases and blocks exactly the tasks whose dependencies, told by ids of passed tasks, demand it, and changes nothing else |
| `FeatureLedger.Ledger.NextReady` | tcfactory/feature_ledger.py:99-104 | returns the first automatable task that is ready or approved after a refresh, or none exists; all its dependencies have passed, unless its packet had been approved before |
| `FeatureLedger.Ledger.SyncFromQueue` | tcfactory/autopilot.py:431-489 | computes the specified sync, and reports a change if and only if some status changed |
| `FeatureLedger.Ledger.RespecFailed` | tcfactory/autopilot.py:833-985 | the field assignments compute the specified re-specification and touch no other task |
| `FeatureLedger.DispatchTakesFirst` | tcfactory/autopilot.py:1496-1523 | a dispatch queues the first automatable ready or approved task, with a new packet only if it has none, and touches no other task |
| `FeatureLedger.RespecTakesFirst` | tcfactory/autopilot.py:1369-1371 | a failure goes to the first task that asks for re-specification; a new packet is attached only if it cost a revision |
| `FeatureLedger.RecoverySpendsNothing` | tcfactory/autopilot.py:722-754 | a recovery keeps the packet and both revision counts, refills the infrastructure budget and touches no passed and no other task |
| `FeatureLedger.StepKeepsTerminal` | tcfactory/autopilot.py:431-489 | no controller step changes a terminally blocked task except its verified recovery |
| `FeatureLedger.RunKeepsTerminal` | tcfactory/autopilot.py:862-943 | in every controller run, terminally blocked implies status blocked |
| `FeatureLedger.TerminalIsFinal` | tcfactory/autopilot.py:722-830 | in every run without its recovery, a terminally blocked task stays exactly as it is |
| `FeatureLedger.TerminalIsNeverSelected` | tcfactory/autopilot.py:1369-1371 | it is never selected for dispatch or re-specification |
| `FeatureLedger.RunSpendsPotential` | tcfactory/autopilot.py:833-985 | in every run without its recovery, retries granted plus budget left never exceed the budget at the start |
| `FeatureLedger.RunsRespectTheBound` | tcfactory/autopilot.py:833-985 | the (R+V)(I+1)+I bound holds in every interleaving with queue sync, dispatch and other tasks |
| `VerifiedRepair.NoSignalUntilNextRepair` | tcfactory/autopilot.py:584-632 | after a recovery there is no signal, by marker, status or result file, until a newer applied repair is recorded |
| `VerifiedRepair.RecoveriesPlusPending` | tcfactory/autopilot.py:584-632 | over every crash-free run, recoveries plus a pending signal never exceed repairs plus the signal pending at the start |
| `VerifiedRepair.EachRepairReopensOnce` | tcfactory/autopilot.py:811-830 | recoveries never outnumber recorded repairs by more than the signal pending at the start |
| `VerifiedRepair.CrashBeforeUnlinkKeepsSignal` | tcfactory/autopilot.py:811-829 | the record alone withdraws the signal if and only if there is no marker to remove |
| `VerifiedRepair.RecoveryRecords` | tcfactory/autopilot.py:811-830 | what a recovery records and withdraws, by the kind of signal; without a signal nothing happens |
| `VerifiedRepair.MergedWaitsForRecovery` | tcfactory/autopilot.py:584-599 | a merged repair raises the signal, and no run of other events lowers it before a recovery |
| `VerifiedRepair.StatusSignalsExactly` | tcfactory/autopilot.py:592-595 | without marker and result files there is a signal if and only if the status says merged and nothing was ever consumed |
| `VerifiedRepair.FallbackExactly` | tcfactory/autopilot.py:598-624 | without a marker, the newest result file raises the signal if and only if it was applied, is younger than the last recovery and is not one that it consumed |
| `VerifiedRepair.InsertKeepsOrder` | tcfactory/autopilot.py:598-601 | result files stay in name order; a file replaces only its namesake |
| `VerifiedRepair.PrecedesExactly` | tcfactory/autopilot.py:598-601 | the name order is lexicographic |
| `VerifiedRepair.Controller.RepairOrHardStuck` | tcfactory/autopilot.py:290-393 | a batch stays within the ceiling, stops at the first applied repair or pause and says which, leaves the marker exactly for an applied repair, withdraws the merged status in every other case, and gives up only at the ceiling or when repair is off |
| `ObjectStream.ParsedIsFrame` | deployment/repository_snapshot.py:217-245 | what one iteration accepts is exactly one correctly framed and hashed frame of the requested object, within the limits |
| `ObjectStream.FrameIsParsed` | deployment/repository_snapshot.py:217-245 | every such frame is accepted, and nothing of what follows is consumed |
| `ObjectStream.BatchIsFrames` | deployment/repository_snapshot.py:213-272 | an accepted batch consumed exactly the frames of the requested objects in order |
| `ObjectStream.FramesAreParsed` | deployment/repository_snapshot.py:213-272 | every such concatenation within the limit is accepted, whatever follows it |
| `ObjectStream.BatchAcceptedExactly` | deployment/repository_snapshot.py:188-285 | accepted if and only if the stream starts with such frames, and then exactly those bytes are consumed |
| `ObjectStream.GitFrameMeans` | deployment/repository_snapshot.py:217-245 | a frame is the identifier, one of four kinds and the size on a line, the content and a newline, with the identifier as the SHA-1 of kind, size and content |
| `BatchReader.Stream.CopyExact` | deployment/repository_snapshot.py:176-185 | the chunk loop copies exactly the requested bytes, or fails exactly when the stream is too short |
| `BatchReader.Stream.ReadLine` | deployment/repository_snapshot.py:217-217 | reads up to and including the first newline |
| `BatchReader.Stream.ReadBody` | deployment/repository_snapshot.py:235-245 | content, closing newline and identity check as specified, consuming nothing further |
| `BatchReader.Stream.ReadObject` | deployment/repository_snapshot.py:214-245 | one iteration agrees with the specified parser on acceptance, object and position |
| `BatchReader.Stream.ReadBatch` | deployment/repository_snapshot.py:188-285 | the whole loop agrees with the specified batch parser on acceptance, objects and position |
| `BatchReader.ParseFromIsBatch` | deployment/repository_snapshot.py:213-272 | reading by position equals parsing the remaining text |
| `Decimals.PyIntOfDecimal` | deployment/repository_snapshot.py:239-239 | a formatted size reads back as the same number |
| `Decimals.DigitsExactly` | deployment/repository_snapshot.py:222-222 | digits are read if and only if every underscore stands between two digits, with the value of the digits alone |
| `Decimals.PyIntReads` | deployment/repository_snapshot.py:222-222 | blanks around and a sign are accepted, and the sign counts |
| `Decimals.PyIntReadsOnly` | deployment/repository_snapshot.py:222-222 | nothing else is read as a number |
| `StageTree.PlaceAllAppend` | deployment/repository_snapshot.py:167-173 | staging two lists one after the other equals staging their concatenation |
| `StageTree.FilledExactly` | deployment/runtime_distribution.py:271-287 | staging succeeds if and only if no two paths are equal or nested, and then the tree is exactly the files and the directories above them |
| `SnapshotConfig.ConfigTextIsSafe` | deployment/repository_snapshot.py:288-299 | the generated Git configuration contains none of the words that the validator forbids |
| `SnapshotConfig.ConfigTextIs` | deployment/repository_snapshot.py:288-299 | it is the core section with its four settings |
| `SnapshotConfig.SafeConfigMeans` | deployment/privileged_installer.py:1275-1291 | a configuration is safe if and only if it is not empty and has none of the six words in any case |
| `RepositorySnapshot.ObjectPathRoundTrip` | deployment/privileged_installer.py:1304-1314 | split paths and object identifiers determine each other |
| `RepositorySnapshot.LooseRoundTrip` | deployment/privileged_installer.py:1243-1263 | a loose object as built parses back to its own identifier, kind and size |
| `RepositorySnapshot.LooseIsSound` | deployment/privileged_installer.py:1243-1263 | whatever is read as a loose object is deflated, of one of the four kinds, as long as its header says, and hashes to its identifier |
| `RepositorySnapshot.EntryPathMeans` | deployment/privileged_installer.py:517-536 | which paths an inventory entry may have, written out |
| `RepositorySnapshot.AcceptedMembers` | deployment/privileged_installer.py:1192-1301 | every member of an accepted archive has its own proper path, is no pack, alternate or hook, and at an object path hashes to it |
| `RepositorySnapshot.AcceptedControls` | deployment/privileged_installer.py:1275-1291 | an accepted archive has HEAD on main, main at the manifest's commit and a safe configuration |
| `RepositorySnapshot.AcceptedManifest` | deployment/privileged_installer.py:1266-1274 | the manifest of an accepted archive lists each member with mode and digest in order, exactly its objects, and a source manifest that is a member |
| `RepositorySnapshot.InTrackedItems` | deployment/repository_snapshot.py:255-262 | an object is copied to exactly the tracked paths that name it; what is copied is in `BuiltHoldsCommit` |
| `RepositorySnapshot.StagedKinds` | deployment/repository_snapshot.py:188-320 | a staged file is an object, a tracked file or a Git control, and nothing else |
| `RepositorySnapshot.HarmlessIsAccepted` | deployment/privileged_installer.py:1212-1301 | a file whose path fits an inventory entry and does not imitate Git's storage is accepted with every directory above it |
| `RepositorySnapshot.DangerousIsRefused` | deployment/privileged_installer.py:1293-1301 | one that does is refused, itself or by a directory above it |
| `RepositorySnapshot.MembersAcceptedExactly` | deployment/privileged_installer.py:1192-1301 | the members of a listed tree are accepted if and only if every staged file is, with the directories above it |
| `RepositorySnapshot.ObjectsAreFound` | deployment/privileged_installer.py:1243-1271 | the objects that the validator finds are exactly the commit's objects |
| `RepositorySnapshot.BuiltHoldsCommit` | deployment/repository_snapshot.py:188-320 | the archive holds each tracked file under its path with its mode bit and the content of its blob, each object under its identifier with Git's encoding, the five control files with their text, and nothing else but the directories above |
| `RepositorySnapshot.BuiltIsDescribed` | deployment/repository_snapshot.py:399-500 | the manifest lists every member with mode and digest, every object with its size, and the digest of the source manifest |
| `RepositorySnapshot.SnapshotAcceptedExactly` | deployment/privileged_installer.py:1192-1301 | about the validator alone: it accepts a listed staged tree if and only if no tracked file imitates Git's own storage |
| `RepositorySnapshot.PlainCommitIsAccepted` | deployment/privileged_installer.py:1192-1301 | it accepts every listed staged tree with no tracked path under `.git` |
| `RepositorySnapshot.BuiltIsAccepted` | deployment/repository_snapshot.py:303-320 | `git read-tree` lets only such commits through, so the validator accepts whatever the builder writes |
| `RepositorySnapshot.PrefixIsInventoried` | deployment/privileged_installer.py:517-536 | the directories above an inventoried path fit the inventory too |
| `SnapshotBuilder.Materialize` | deployment/repository_snapshot.py:188-285 | the nested loops stage exactly the specified files in order, and fail on a path of the temporary file |
| `SnapshotBuilder.StageCommit` | deployment/repository_snapshot.py:188-320 | succeeds if and only if every tracked blob is reachable, no paths collide and Git can index every tracked path, and then holds exactly the staged files |
| `SnapshotBuilder.InventoriedExactly` | deployment/repository_snapshot.py:399-417 | every listed path fits an inventory entry if and only if every tracked path does |
| `SnapshotBuilder.CheckInventory` | deployment/repository_snapshot.py:399-417 | passes if and only if every path fits its entry (one line, at most 4095 characters, not the manifest) and there are at most a million |
| `SnapshotBuilder.WriteSnapshot` | deployment/repository_snapshot.py:454-500 | writes the archive and manifest of a staged tree if and only if it has its source manifest and can be inventoried |
| `SnapshotBuilder.ListTree` | deployment/repository_snapshot.py:399-431 | every file and directory of the tree is listed once, with its mode and bytes, and nothing else |
| `SnapshotBuilder.ReadMembers` | deployment/privileged_installer.py:1203-1270 | succeeds if and only if all members are safe, distinct and correctly framed, and gathers entries and objects exactly |
| `SnapshotBuilder.ValidateArchive` | deployment/privileged_installer.py:1192-1301 | returns true if and only if the archive is acceptable |
| `SnapshotBuilder.BuildSnapshot` | deployment/repository_snapshot.py:434-504 | for archives below two gigabytes: succeeds if and only if the commit can be staged, indexed by Git and inventoried; what it builds holds exactly the commit's tracked files, objects and controls, is described by its manifest and passes the validation at its end |
| `RuntimeDistribution.ArchiveMembers` | deployment/runtime_distribution.py:175-214 | succeeds if and only if every member is safe, distinct and within the single and total size limits |
| `RuntimeDistribution.ReadMember` | deployment/runtime_distribution.py:234-241 | the chunk loop returns the whole content if and only if it fits its entry |
| `RuntimeDistribution.ValidateDistribution` | deployment/runtime_distribution.py:217-253 | true if and only if the digest, the set of names and every member's mode, size and digest agree with the manifest |
| `RuntimeDistribution.ValidateExtracted` | deployment/runtime_distribution.py:305-336 | true if and only if the tree has closed directories and exactly the manifest's files |
| `RuntimeDistribution.CleanExactly` | deployment/runtime_distribution.py:122-126 | a manifest's paths can stand in one tree if and only if none is a directory of another |
| `RuntimeDistribution.ExtractedIsAccepted` | deployment/runtime_distribution.py:305-336 | an extracted tree of a validated archive passes the independent check |
| `RuntimeDistribution.AcceptedPinsFiles` | deployment/runtime_distribution.py:324-336 | any two trees that pass the check hold the same files |
| `RuntimeDistribution.ExtractedHoldsArchive` | deployment/runtime_distribution.py:256-292 | an extracted tree holds each member's bytes with its mode under its path, no other file, and only closed directories above them |
| `RuntimeDistribution.ValidMeans` | deployment/runtime_distribution.py:175-253 | a valid archive has only regular, bounded members with proper paths, and the manifest has exactly one entry for each, with its mode, size and digest |
| `RuntimeDistribution.Host.Fill` | deployment/runtime_distribution.py:269-287 | the extraction loop fills the stage exactly as specified, or stops |
| `RuntimeDistribution.Host.Seal` | deployment/runtime_distribution.py:288-292 | closes every directory and changes no content |
| `RuntimeDistribution.Host.RemoveStage` | deployment/runtime_distribution.py:294-302 | nothing of the stage is left |
| `RuntimeDistribution.Host.Extract` | deployment/runtime_distribution.py:256-302 | succeeds if and only if the archive is valid, the destination absent, no entry is a directory of another and no step failed; then the destination holds exactly the archive, otherwise it is untouched and the stage is gone |
| `GenerationInventory.ModuleTargetIsInjective` | deployment/runtime_refresh.py:506-518 | two sources never share a module target |
| `GenerationInventory.ModuleTargetExactly` | deployment/runtime_refresh.py:506-518 | a source has a target if and only if it is Python below a mapped package, and then it is the package's target with the rest of the path |
| `GenerationInventory.PackageKeepsName` | deployment/runtime_distribution.py:66-79 | each package keeps its own directory name |
| `GenerationInventory.RepositoryAndModulesAreDisjoint` | deployment/runtime_refresh.py:556-576 | no module target is a repository path |
| `GenerationInventory.InventoryHasNoDuplicates` | deployment/runtime_refresh.py:162-169 | the inventory of any tree names no path twice |
| `GenerationInventory.AttestedExactly` | deployment/runtime_refresh.py:917-953 | the inventory comparison passes if and only if no tracked file lies below a `.git` directory |
| `GenerationInventory.FilesAreDetermined` | deployment/runtime_refresh.py:552-576 | the files of a generation are determined by the candidate tree |
| `GenerationInventory.BuiltIsAttested` | deployment/runtime_refresh.py:917-953 | every build that completes passes attestation, because `git reset` refuses the trees that would not |
| `GenerationInventory.AttestedPinsFiles` | deployment/runtime_refresh.py:917-949 | two generations attested under one inventory agree in every file that the comparison does not leave aside |
| `GenerationInventory.AttestedImportsStartInside` | deployment/runtime_refresh.py:950-953 | every package of an attested generation has its initializer inside |
| `GenerationInventory.FinishedHoldsRows` | deployment/runtime_refresh.py:552-576 | a finished generation holds every tracked file with mode and bytes, every mapped module again without the executable bit, the Git directory, the manifests and nothing else |
| `GenerationInventory.AllEntriesInventory` | deployment/runtime_refresh.py:552-576 | the inventory names both files of each tracked file, with mode, digest and source |
| `GenerationInventory.BuildableMeans` | deployment/runtime_refresh.py:534-742 | a build needs the pinned lock, the factory configuration and a source pointer in the tree, modules that parse and paths that Git and the inventory accept |
| `GenerationInventory.Builder.WriteRows` | deployment/runtime_refresh.py:552-576 | the file loop never collides, and writes exactly the inventory |
| `GenerationInventory.Builder.Build` | deployment/runtime_refresh.py:534-742 | returns if and only if nothing collides with the reserved paths, Git indexes every path, every import starts inside and the pin, source, configuration, lock, inventory and syntax gates pass; whatever it returns holds exactly the tracked files and modules and passes attestation |
| `TokenHandoff.TornPairIsRefused` | deployment/github_token_refresher.py:269-280 | a token and metadata of different refreshes never pass the check together |
| `TokenHandoff.AdvanceKeepsInv` | deployment/github_token_refresher.py:252-290 | each step of each process keeps outbox, processes and target genuine |
| `TokenHandoff.RunsKeepInv` | deployment/github_token_refresher.py:225-290 | so does every interleaving with every crash |
| `TokenHandoff.RunsStayTraced` | deployment/github_token_refresher.py:225-290 | in every run each pair on its way to the target was checked at some step, and each issued pair was made from an API answer within the bounds by the clock of its refresh |
| `TokenHandoff.IssuableMeans` | deployment/github_token_refresher.py:225-233 | which API answers a refresh accepts |
| `TokenHandoff.FreshPairIsPromotable` | deployment/github_token_refresher.py:269-280 | an issued pair can be promoted if and only if more than the refresh margin is left |
| `TokenHandoff.InstalledTokenIsGenuine` | deployment/github_token_refresher.py:170-290 | in every interleaving the target token is the previous one or one that a promote of the run checked with metadata of the same refresh: right digest, scope and form, and by the clock of that check more than the margin left to live |
| `TokenPair.RunsKeepPair` | deployment/github_token_refresher.py:281-290 | in every run without overlapping promotes and without a crash between the installs, metadata waits for its own token |
| `TokenPair.TargetPairBelongsTogether` | deployment/github_token_refresher.py:281-290 | in every such run, whenever no promote is between its installs, the target pair is the first one or one that a single refresh issued |
| `TokenPair.CrashTearsTarget` | deployment/github_token_refresher.py:284-290 | a crash between the installs leaves a pair that does not belong together, for every promotable pair over another token |
| `TokenHost.Host.Refresh` | deployment/github_token_refresher.py:225-249 | replaces both outbox files exactly when the answer is safe and fresh, and otherwise neither |
| `TokenHost.Host.Promote` | deployment/github_token_refresher.py:252-290 | installs the outbox pair exactly when it passes the check, readable by the controller, and otherwise changes nothing |
| `TokenHost.UndisturbedIsARun` | deployment/github_token_refresher.py:170-290 | undisturbed steps extend any run, so the theorems about all runs cover the sequential programs |
| `TokenHost.RefreshProcess` | deployment/github_token_refresher.py:225-249 | the refresh process, undisturbed, has exactly the effect of the sequential method |
| `TokenHost.PromoteSteps` | deployment/github_token_refresher.py:252-290 | where the promote process stands and what it has written after any number of undisturbed steps |
| `TokenHost.PromoteProcess` | deployment/github_token_refresher.py:252-290 | the promote process, undisturbed, has exactly the effect of the sequential method, whether or not the pair passes the check |
| `CompletionAudit.AutoIdIsInjective` | tcfactory/completion.py:676-681 | different cursors give different identifiers |
| `CompletionAudit.AutoIdShape` | tcfactory/completion.py:676-678 | AUTO and the cursor in decimal, with at least three digits |
| `CompletionAudit.SearchAdvances` | tcfactory/completion.py:676-677 | each step of the search leaves strictly fewer used identifiers ahead, so it ends for every finite ledger |
| `CompletionAudit.GenerateIds` | tcfactory/completion.py:671-681 | as many identifiers as failures, distinct and unused |
| `CompletionAudit.Remediate` | tcfactory/completion.py:671-693 | the remediation items always pass the validation of new items |
| `CompletionAudit.CutKeepsDependencies` | tcfactory/completion.py:417-429 | valid work cut to its first items has only known dependencies if and only if no kept item depends on a dropped one |
| `CompletionAudit.Decide` | tcfactory/completion.py:560-704 | complete if and only if every report is COMPLETE with nothing missing, no deterministic failure remains, the private gate passed and main stood still; proposes if and only if the reports may decide, completion is not reached and there is a failure to remediate or valid missing work; a proposal is the first five of that work, distinct and new, and has only known dependencies exactly when none was dropped |
| `CompletionAudit.Propose` | tcfactory/completion.py:666-704 | proposes if and only if the decision is not BLOCKED and is COMPLETE with failures or has valid missing work, and says which work |
| `CompletionAudit.NeedsAdjudicatorExactly` | tcfactory/completion.py:401-414 | the adjudicator is spared if and only if there are reports, their verdicts agree, and INCOMPLETE ones name the same items equally often |
| `CompletionAudit.AdjudicatorCannotComplete` | tcfactory/completion.py:401-414 | whenever completion is possible the adjudicator is not asked, and no verdict of its changes it |
| `ContextBudget.FitIsBounded` | tcfactory/context.py:101-115 | the result totals at most limit + 11 characters |
| `ContextBudget.AtMostTwoTruncated` | tcfactory/context.py:110-112 | at most two entries are truncated, one if the limit is at most 12 |
| `ContextBudget.FittingIsUnchanged` | tcfactory/context.py:101-115 | what fits is returned unchanged |
| `ContextBudget.FitIsPrefixwise` | tcfactory/context.py:110-114 | every result is its entry or a prefix of it with the mark |
| `ContextBudget.FitExactly` | tcfactory/context.py:101-115 | entry by entry: unchanged if it fits into what the earlier results left, else cut to that less 20 characters with the mark; results end early only when the limit is used up |
| `ContextBudget.StripMeans` | tcfactory/context.py:105-107 | stripping removes white space at both ends, and all of it |
| `ContextBudget.CleanedAppend` | tcfactory/context.py:104-107 | cleaning goes entry by entry, in order |
| `ContextBudget.CleanedOne` | tcfactory/context.py:104-107 | each entry is stripped, and kept unless it is blank |
| `ContextBudget.BoundIsReached` | tcfactory/context.py:101-115 | the bound is tight for every positive limit |
| `ContextBudget.TakeWhileBudget` | tcfactory/context.py:101-115 | the loop computes the specified budget of the stripped non-blank entries |
| `ContextBudget.Bounded` | tcfactory/context.py:101-115 | the result is within the bound, is the stripped non-blank input when that fits, and each entry is cut exactly as what remains demands |
| `ContextBudget.NewestUniqueFindings` | tcfactory/context.py:118-129 | each distinct finding once, at its newest position, newest first, none missing |

## Left out

- PrivilegedInstaller.Installer.AttestInstalledTree: checks of unit contents, access and Git are not modelled and count as faults.
- PrivilegedInstaller.Installer.Rollback: restoring one file or directory, which takes several system calls, is one step.
- PrivilegedInstaller.Installer.WriteTarget: creating or replacing one target with its owner and mode is one step.
- RuntimeRefresh.RunKeepsInv: one transaction with one handoff; file modes and ownership of the live files, temporary files of `_atomic_json`, and removal of the staging directories at exit are not modelled.
- RuntimeRefresh.AttestPreExactly: of the artifacts that the runtime manifest names, those that no refresh replaces (interpreter, dependency lock, controller unit, the installed generation's own manifest) are not modelled.
- RuntimeDistribution.Host.RemoveStage: visits paths in any order with children before parents, of which the source's reverse sorted order is one; write permission inside closed directories is that of root.
- SnapshotBuilder.ListTree: the archive lists the tree in any order; the sorted order and its check are not modelled.
- SnapshotBuilder.BuildSnapshot: reading the active-generation file is reduced to the path it names, if it is valid; members past offset 2^31-1 get a zip64 extra field, which the validator refuses, and a path component over 255 bytes stops the staging: neither is modelled.
- RefreshHost.Host.Refresh: an exception inside a rollback, which leaves a mixed live set, is in the machine of `RuntimeRefresh` only.
- GenerationInventory.Builder.Build: two tracked paths of which one is a directory of the other, which no Git tree has, and the packager evidence are not modelled; YAML, JSON and the syntax check are parameters.
- VerifiedRepair.NoSignalUntilNextRepair: which task a recovery reopens, and result files removed by hand, are not modelled.
- Accounts: they are created and retained on rollback, so they are not part of the state.
- Unit transitions are assumed to take full effect or none; the unit and role tables are parameters.
- Ceilings below one are refused by the configuration; the model allows zero.
- `str.lower`, `str.strip` and `int` are modelled on ASCII.
- SHA-256, Ed25519 and RSA signing, the App JWT, zip and zlib byte layout, JSON and YAML: only identity of contents is kept.
- Evidence verification, handoff claiming, activation completions, installer attestation of access boundaries and role metadata: long exact-equality checks.
- `build_runtime_distribution`, required imports, the bundle assembler, command lines, prompts and the planner: easy members or code outside the core.
