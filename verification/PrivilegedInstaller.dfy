/** The resumable, journalled installation of deployment/privileged_installer.py.

    A method that returns `Raised` met an exception, at a fail hook or because a check failed; one that
    returns `Killed` lost its process right after the journal was saved. */
module PrivilegedInstaller {
  import opened Prelude
  import opened InstallJournal
  import opened InstalledTree

  type Unit = string

  datatype UnitState = UnitState(enabled: bool, active: bool)

  datatype Transition = Enable(unit: Unit) | Disable(unit: Unit) | Start(unit: Unit) | Stop(unit: Unit) | Restart(unit: Unit)

  datatype Status = Open | Committed | RolledBack

  /** state.json. */
  datatype Journal = Journal(
    status: Status,
    initialized: bool,
    tx: Tx,
    baseline: map<Unit, UnitState>,
    systemEffects: bool,
    quiesced: bool,
    reloaded: bool)

  datatype Outcome = Finished | Raised | Killed

  /** What may disturb an attempt: exceptions from outside at any fail hook, kills right after a journal
      write, and whether either may also strike between the rename of the runtime and its journal write. */
  datatype Faults = Faults(raise: bool, kill: bool, window: bool)

  const CALM: Faults := Faults(false, false, false)
  const KILLS: Faults := Faults(false, true, false)

  /** Why an attempt stopped: a fault, or something was not ready. */
  predicate Explained(o: Outcome, f: Faults, ready: bool) {
    (o.Raised? ==> f.raise || !ready) && (o.Killed? ==> f.kill)
  }

  method Interrupt(f: Faults) returns (o: Outcome)
    ensures Explained(o, f, true)
  {
    o := Finished;
    if * {
      o := if f.raise then Raised else Finished;
    } else if * {
      o := if f.kill then Killed else Finished;
    }
  }

  /** A rollback may be cut short by either. */
  method Cut(f: Faults) returns (cut: bool)
    ensures cut ==> f.raise || f.kill
  {
    cut := false;
    if * {
      cut := f.raise || f.kill;
    }
  }

  function UnitPath(u: Unit): Path {
    ["etc", "systemd", "system", u]
  }

  predicate HoldsFile(tree: Tree, p: Path) {
    p in tree && tree[p].File?
  }

  /** What attempts may do to a unit: nothing, except that one that was active without a unit file ends
      inactive. */
  predicate UnitKept(first: Tree, u: Unit, before: UnitState, after: UnitState) {
    && after.enabled == before.enabled
    && (after.active == before.active || (before.active && !after.active && !HoldsFile(first, ["etc", "systemd", "system", u])))
  }

  class Installer {
    const spec: Spec
    const managedUnits: seq<Unit>
    const pathUnits: seq<Unit>
    const controller: Unit
    const authority: Unit

    var tree: Tree
    var journal: Option<Journal>
    var backups: map<Path, Bytes>
    var units: map<Unit, UnitState>
    var log: seq<Transition>

    /** The journals that rollbacks worked from. */
    ghost var rollbacks: seq<Tx>

    constructor (spec: Spec, managedUnits: seq<Unit>, pathUnits: seq<Unit>, controller: Unit, authority: Unit,
                 tree: Tree, units: map<Unit, UnitState>)
      requires Layout(spec) && Closed(tree)
      requires forall i, j :: 0 <= i < j < |managedUnits| ==> managedUnits[i] != managedUnits[j]
      requires controller !in pathUnits && authority != controller
      ensures Consistent(tree) && NothingOpen() && this.tree == tree && this.units == units
      ensures this.spec == spec && this.managedUnits == managedUnits && this.pathUnits == pathUnits
      ensures this.controller == controller && this.authority == authority
    {
      this.spec, this.managedUnits, this.pathUnits := spec, managedUnits, pathUnits;
      this.controller, this.authority := controller, authority;
      this.tree, this.units := tree, units;
      journal, backups, log, rollbacks := None, map[], [], [];
    }

    /** An open transaction whose journal accounts for everything since `orig`. */
    ghost predicate InTransaction(orig: Tree)
      reads this
    {
      && journal.Some? && journal.value.initialized
      && Recoverable(spec, orig, tree, journal.value.tx, backups)
      && EntriesKnown(spec, journal.value.tx)
    }

    /** The file-system methods change only the file-system part of the journal, drop no record and
        never rewrite a backup. */
    twostate predicate JournalGrows()
      reads this
    {
      && old(journal).Some? && journal.Some?
      && journal.value == old(journal).value.(tx := journal.value.tx)
      && TxGrows(old(journal).value.tx, journal.value.tx) && BackupsGrow(old(backups), backups)
      && (old(journal).value.tx.runtime ==> journal.value.tx.runtime)
    }

    /** The runtime root and its record are untouched. */
    twostate predicate RuntimeKept()
      reads this
    {
      && old(journal).Some? && journal.Some? && journal.value.tx.runtime == old(journal).value.tx.runtime
      && At(tree, spec.runtimeRoot) == At(old(tree), spec.runtimeRoot)
    }

    /** `_prepare_resource`. */
    method PrepareResource(k: Path, ghost orig: Tree) returns (ok: bool)
      requires InTransaction(orig) && Managed(spec, k) && k != spec.runtimeRoot
      modifies `journal, `backups
      ensures InTransaction(orig) && JournalGrows() && RuntimeKept()
      ensures ok ==> k in journal.value.tx.resources
      ensures ok ==> journal.value.tx.resources[k] == SaveOf(orig, k, IsDirectory(spec, k))
      ensures !ok ==> !WellTyped(spec, orig, k)
    {
      var tx := journal.value.tx;
      assert Consider(k);
      if k in tx.resources {
        return true;
      }
      UntouchedTarget(spec, orig, tree, tx, backups, k);
      var directory := IsDirectory(spec, k);
      if k in tree && (tree[k].Subtree? || tree[k].Dir? != directory) {
        return false;
      }
      var backups' := if k in tree && tree[k].File? && k !in backups then backups[k := tree[k].content] else backups;
      var tx' := tx.(resources := tx.resources[k := SaveOf(tree, k, directory)]);
      PrepareKeeps(spec, orig, tree, tx, backups, k, tx', backups');
      backups := backups';
      journal := Some(journal.value.(tx := tx'));
      return true;
    }

    /** Replace a journalled target, as `_atomic_replace` or `mkdir` with `chown` and `chmod` do. */
    method WriteTarget(k: Path, node: Node, ghost orig: Tree) returns (ok: bool)
      requires InTransaction(orig) && k in journal.value.tx.resources && k != []
      requires node.Dir? == IsDirectory(spec, k) && !node.Subtree? && (k == spec.stop ==> k !in orig)
      modifies `tree
      ensures InTransaction(orig)
      ensures ok <==> IsDir(old(tree), Parent(k))
      ensures tree == if ok then old(tree)[k := node] else old(tree)
    {
      if !IsDir(tree, Parent(k)) {
        return false;
      }
      WriteKeeps(spec, orig, tree, journal.value.tx, backups, k, node);
      tree := tree[k := node];
      return true;
    }

    /** Journal one managed target and then write it; the process may stop after either. */
    method InstallTarget(k: Path, node: Node, f: Faults, ghost orig: Tree) returns (o: Outcome)
      requires InTransaction(orig) && Managed(spec, k) && k != spec.runtimeRoot && k != spec.stop && k != []
      requires node.Dir? == IsDirectory(spec, k) && !node.Subtree?
      modifies `tree, `journal, `backups
      ensures InTransaction(orig) && JournalGrows() && RuntimeKept()
      ensures tree == old(tree) || tree == old(tree)[k := node]
      ensures o.Finished? ==> tree == old(tree)[k := node] && k in journal.value.tx.resources
      ensures Explained(o, f, WellTyped(spec, orig, k) && IsDir(old(tree), Parent(k)))
    {
      var ok := PrepareResource(k, orig);
      if !ok {
        return Raised;
      }
      o := Interrupt(f);
      if !o.Finished? {
        return;
      }
      ok := WriteTarget(k, node, orig);
      if !ok {
        return Raised;
      }
      o := Interrupt(f);
    }

    /** `_ensure_directories`. */
    method EnsureDirectories(f: Faults, ghost orig: Tree) returns (o: Outcome)
      requires InTransaction(orig) && DistinctDirectories(spec) && ParentsFirst(spec)
      modifies `tree, `journal, `backups
      ensures InTransaction(orig) && JournalGrows() && RuntimeKept()
      ensures o.Finished? ==>
                && DirectoriesInstalled(spec, tree, |spec.directories|)
                && DirectoriesPrepared(spec, journal.value.tx, |spec.directories|)
      ensures Explained(o, f, DirectoriesReady(spec, orig))
    {
      o := Finished;
      for i := 0 to |spec.directories|
        invariant InTransaction(orig) && JournalGrows() && RuntimeKept()
        invariant DirectoriesInstalled(spec, tree, i) && DirectoriesPrepared(spec, journal.value.tx, i)
        invariant o.Finished?
      {
        ghost var before := journal.value.tx;
        o := InstallDirectory(i, f, orig);
        if !o.Finished? {
          return;
        }
        PreparedGrow(spec, before, journal.value.tx, i);
      }
    }

    method InstallDirectory(i: nat, f: Faults, ghost orig: Tree) returns (o: Outcome)
      requires InTransaction(orig) && DistinctDirectories(spec) && ParentsFirst(spec)
      requires i < |spec.directories| && DirectoriesInstalled(spec, tree, i)
      modifies `tree, `journal, `backups
      ensures InTransaction(orig) && JournalGrows() && RuntimeKept()
      ensures o.Finished? ==> DirectoriesInstalled(spec, tree, i + 1) && spec.directories[i].target in journal.value.tx.resources
      ensures Explained(o, f, DirectoriesReady(spec, orig))
    {
      var pin := spec.directories[i];
      assert IsDirectory(spec, pin.target);
      DirectoryFits(spec, orig, tree, journal.value.tx, backups, i);
      o := InstallTarget(pin.target, Dir(pin.mode, pin.owner), f, orig);
    }

    /** `_ensure_stop_marker`. */
    method EnsureStopMarker(f: Faults, ghost orig: Tree) returns (o: Outcome)
      requires InTransaction(orig) && DistinctStop(spec)
      modifies `tree, `journal, `backups
      ensures InTransaction(orig) && JournalGrows() && RuntimeKept()
      ensures forall p :: p != spec.stop ==> At(tree, p) == old(At(tree, p))
      ensures o.Finished? ==> At(tree, spec.stop) == Some(StopNode(spec, orig)) && StopReady(spec, orig)
      ensures Explained(o, f, StopReady(spec, orig) && IsDir(old(tree), Parent(spec.stop)))
    {
      var ok := PrepareResource(spec.stop, orig);
      if !ok {
        return Raised;
      }
      o := Interrupt(f);
      if !o.Finished? {
        return;
      }
      if !journal.value.tx.resources[spec.stop].existed {
        ok := WriteTarget(spec.stop, File(STOP_MARKER, MODE_0600, spec.stopOwner), orig);
        if !ok {
          return Raised;
        }
      }
      if spec.stop !in tree || !tree[spec.stop].File? || tree[spec.stop].mode != MODE_0600
         || tree[spec.stop].owner != spec.stopOwner
      {
        return Raised;
      }
      o := Interrupt(f);
    }

    /** `_install_files`. */
    method InstallFiles(f: Faults, ghost orig: Tree) returns (o: Outcome)
      requires InTransaction(orig) && DistinctFiles(spec) && DirectoriesInstalled(spec, tree, |spec.directories|)
      modifies `tree, `journal, `backups
      ensures InTransaction(orig) && JournalGrows() && RuntimeKept()
      ensures forall p :: !IsFile(spec, p) ==> At(tree, p) == old(At(tree, p))
      ensures DirectoriesInstalled(spec, tree, |spec.directories|)
      ensures o.Finished? ==> FilesInstalled(spec, tree, |spec.files|)
      ensures Explained(o, f, FilesReady(spec, orig))
    {
      o := Finished;
      for i := 0 to |spec.files|
        invariant InTransaction(orig) && JournalGrows() && RuntimeKept()
        invariant forall p :: !IsFile(spec, p) ==> At(tree, p) == old(At(tree, p))
        invariant DirectoriesInstalled(spec, tree, |spec.directories|)
        invariant FilesInstalled(spec, tree, i) && o.Finished?
      {
        o := InstallFile(i, f, orig);
        if !o.Finished? {
          return;
        }
      }
    }

    method InstallFile(i: nat, f: Faults, ghost orig: Tree) returns (o: Outcome)
      requires InTransaction(orig) && DistinctFiles(spec) && DirectoriesInstalled(spec, tree, |spec.directories|)
      requires i < |spec.files| && FilesInstalled(spec, tree, i)
      modifies `tree, `journal, `backups
      ensures InTransaction(orig) && JournalGrows() && RuntimeKept()
      ensures DirectoriesInstalled(spec, tree, |spec.directories|)
      ensures forall p :: !IsFile(spec, p) ==> At(tree, p) == old(At(tree, p))
      ensures o.Finished? ==> FilesInstalled(spec, tree, i + 1)
      ensures Explained(o, f, FilesReady(spec, orig))
    {
      var pin := spec.files[i];
      o := Finished;
      if pin.role == Ordinary {
        assert IsFile(spec, pin.target);
        FileFits(spec, orig, tree, journal.value.tx, backups, i);
        ghost var before := tree;
        o := InstallTarget(pin.target, File(pin.content, pin.mode, pin.owner), f, orig);
        DirectoriesStay(spec, before, tree, pin.target);
      }
    }

    /** `_install_runtime_distribution`.  The distribution is in place before the journal says so. */
    method InstallRuntime(f: Faults, ghost orig: Tree) returns (o: Outcome)
      requires InTransaction(orig) && !Managed(spec, spec.runtimeRoot)
      modifies `tree, `journal
      ensures InTransaction(orig) && JournalGrows()
      ensures forall p :: p != spec.runtimeRoot ==> At(tree, p) == old(At(tree, p))
      ensures o.Finished? ==>
                && At(tree, spec.runtimeRoot) == Some(Subtree(spec.runtime, true)) && journal.value.tx.runtime
                && !Obstructed(spec, orig, old(tree), old(journal).value.tx)
      ensures Explained(o, f, spec.runtimeRoot !in orig && IsDir(old(tree), Parent(spec.runtimeRoot))
                              && !Obstructed(spec, orig, old(tree), old(journal).value.tx))
      ensures Obstructed(spec, orig, tree, journal.value.tx) ==> f.window || Obstructed(spec, orig, old(tree), old(journal).value.tx)
    {
      if spec.runtimeRoot in tree {
        if !journal.value.tx.runtime || tree[spec.runtimeRoot] != Subtree(spec.runtime, true) {
          return Raised;
        }
      } else {
        if !IsDir(tree, Parent(spec.runtimeRoot)) {
          return Raised;
        }
        o := PlaceRuntime(f, orig);
        if !o.Finished? {
          return;
        }
      }
      o := Interrupt(f);
    }

    /** The rename, and the journal write that follows it. */
    method PlaceRuntime(f: Faults, ghost orig: Tree) returns (o: Outcome)
      requires InTransaction(orig) && !Managed(spec, spec.runtimeRoot)
      requires spec.runtimeRoot !in tree && IsDir(tree, Parent(spec.runtimeRoot))
      modifies `tree, `journal
      ensures InTransaction(orig) && JournalGrows() && spec.runtimeRoot !in orig
      ensures tree == old(tree)[spec.runtimeRoot := Subtree(spec.runtime, true)]
      ensures o.Finished? ==> journal.value.tx.runtime
      ensures !journal.value.tx.runtime ==> f.window
      ensures Explained(o, f, true)
    {
      RuntimeKeeps(spec, orig, tree, journal.value.tx, backups);
      tree := tree[spec.runtimeRoot := Subtree(spec.runtime, true)];
      o := Finished;
      if f.window {
        o := Interrupt(f);
        if !o.Finished? {
          return;
        }
      }
      var tx' := journal.value.tx.(runtime := true);
      RuntimeRecordKeeps(spec, orig, tree, journal.value.tx, backups, tx');
      journal := Some(journal.value.(tx := tx'));
    }

    ghost predicate EntryPlaced(e: Entry)
      reads this
    {
      var p := EntryPath(spec, e);
      journal.Some? && InSnapshot(spec, journal.value.tx, p) && p in tree
      && if e.directory then tree[p].Dir? else tree[p] == EntryNode(e)
    }

    ghost predicate EntriesPlaced(n: nat)
      reads this
    {
      forall i :: 0 <= i < n && i < |spec.snapshot| ==> EntryPlaced(spec.snapshot[i])
    }

    /** Journal one snapshot entry. */
    method RecordEntry(i: nat, f: Faults, ghost orig: Tree) returns (o: Outcome)
      requires InTransaction(orig) && SnapshotLayout(spec) && OneManifest(spec) && i < |spec.snapshot|
      modifies `journal
      ensures InTransaction(orig) && JournalGrows()
      ensures journal.value.tx == old(journal).value.tx.(snapshot := journal.value.tx.snapshot)
      ensures o.Finished? ==> InSnapshot(spec, journal.value.tx, EntryPath(spec, spec.snapshot[i]))
      ensures Explained(o, f, BoundaryReady(spec, orig))
    {
      var e := spec.snapshot[i];
      assert IsEntry(spec, EntryPath(spec, e));
      o := Finished;
      if e.path !in journal.value.tx.snapshot {
        if EntryPath(spec, e) in tree {
          EntryIsFree(spec, orig, tree, journal.value.tx, backups, i);
          return Raised;
        }
        var tx' := journal.value.tx.(snapshot := journal.value.tx.snapshot + [e.path]);
        SnapshotRecordKeeps(spec, orig, tree, journal.value.tx, backups, e.path, tx');
        AnotherEntry(spec, journal.value.tx, i);
        journal := Some(journal.value.(tx := tx'));
        o := Interrupt(f);
      }
      EntryIsRecorded(spec, journal.value.tx, e);
    }

    /** Then create it, or accept what an earlier attempt created. */
    method InstallEntry(i: nat, f: Faults, ghost orig: Tree) returns (o: Outcome)
      requires InTransaction(orig) && SnapshotLayout(spec) && OneManifest(spec) && i < |spec.snapshot|
      modifies `tree, `journal
      ensures InTransaction(orig) && JournalGrows()
      ensures forall p :: p != EntryPath(spec, spec.snapshot[i]) ==> At(tree, p) == old(At(tree, p))
      ensures journal.value.tx == old(journal).value.tx.(snapshot := journal.value.tx.snapshot)
      ensures o.Finished? ==> EntryPlaced(spec.snapshot[i])
      ensures o.Finished? && EntryPath(spec, spec.snapshot[i]) in old(tree) ==>
                var was := old(tree)[EntryPath(spec, spec.snapshot[i])];
                if spec.snapshot[i].directory then was.Dir? else was.File? && was.content == spec.snapshot[i].content
      ensures Explained(o, f, BoundaryReady(spec, orig) && IsDir(old(tree), Parent(EntryPath(spec, spec.snapshot[i]))))
    {
      o := RecordEntry(i, f, orig);
      if !o.Finished? {
        return;
      }
      var e := spec.snapshot[i];
      var target := EntryPath(spec, e);
      if target in tree {
        RecordedEntryMatches(spec, orig, tree, journal.value.tx, backups, i);
        if !Matches(e, tree[target]) {
          return Raised;
        }
      }
      if !IsDir(tree, Parent(target)) {
        return Raised;
      }
      if !e.directory || target !in tree {
        var node := if e.directory then Dir(MODE_0700, ROOT) else EntryNode(e);
        assert Matches(e, node) && IsEntryNode(spec, target, node);
        SnapshotWriteKeeps(spec, orig, tree, journal.value.tx, backups, target, node);
        tree := tree[target := node];
      }
      o := Interrupt(f);
    }

    /** The final pass: directories get their own mode once their contents are in place. */
    method SealEntryDirectories(ghost orig: Tree)
      requires InTransaction(orig) && EntriesPlaced(|spec.snapshot|) && SnapshotLayout(spec)
      modifies `tree
      ensures InTransaction(orig) && SnapshotInstalled(spec, tree) && EntriesPlaced(|spec.snapshot|)
      ensures forall p :: !IsEntry(spec, p) ==> At(tree, p) == old(At(tree, p))
    {
      var i := |spec.snapshot|;
      while i > 0
        invariant 0 <= i <= |spec.snapshot|
        invariant InTransaction(orig) && EntriesPlaced(|spec.snapshot|)
        invariant forall p :: !IsEntry(spec, p) ==> At(tree, p) == old(At(tree, p))
        invariant forall j :: i <= j < |spec.snapshot| ==>
                    At(tree, EntryPath(spec, spec.snapshot[j])) == Some(EntryNode(spec.snapshot[j]))
      {
        i := i - 1;
        var e := spec.snapshot[i];
        var target := EntryPath(spec, e);
        assert EntryPlaced(e) && IsEntry(spec, target);
        if e.directory {
          assert IsDir(tree, Parent(target)) by { assert Consider(target); }
          assert Matches(e, EntryNode(e)) && IsEntryNode(spec, target, EntryNode(e));
          SnapshotWriteKeeps(spec, orig, tree, journal.value.tx, backups, target, EntryNode(e));
          forall j | 0 <= j < |spec.snapshot| && j != i ensures EntryPath(spec, spec.snapshot[j]) != target {
            EntryPathsDiffer(spec, i, j);
          }
          tree := tree[target := EntryNode(e)];
        }
      }
    }

    method InstallEntries(f: Faults, ghost orig: Tree) returns (o: Outcome)
      requires InTransaction(orig) && SnapshotLayout(spec) && OneManifest(spec) && IsDir(tree, spec.boundary)
      requires !IsEntry(spec, spec.boundary)
      modifies `tree, `journal
      ensures InTransaction(orig) && JournalGrows()
      ensures journal.value.tx == old(journal).value.tx.(snapshot := journal.value.tx.snapshot)
      ensures forall p :: !IsEntry(spec, p) ==> At(tree, p) == old(At(tree, p))
      ensures o.Finished? ==> SnapshotInstalled(spec, tree) && AllRecorded(spec, journal.value.tx)
      ensures Explained(o, f, BoundaryReady(spec, orig) && SnapshotReady(spec))
    {
      o := PlaceEntries(f, orig);
      if o.Finished? {
        SealEntryDirectories(orig);
        forall i | 0 <= i < |spec.snapshot| ensures InSnapshot(spec, journal.value.tx, EntryPath(spec, spec.snapshot[i])) {
          assert EntryPlaced(spec.snapshot[i]);
        }
      }
    }

    method PlaceEntries(f: Faults, ghost orig: Tree) returns (o: Outcome)
      requires InTransaction(orig) && SnapshotLayout(spec) && OneManifest(spec) && IsDir(tree, spec.boundary)
      requires !IsEntry(spec, spec.boundary)
      modifies `tree, `journal
      ensures InTransaction(orig) && JournalGrows()
      ensures journal.value.tx == old(journal).value.tx.(snapshot := journal.value.tx.snapshot)
      ensures forall p :: !IsEntry(spec, p) ==> At(tree, p) == old(At(tree, p))
      ensures o.Finished? ==> EntriesPlaced(|spec.snapshot|)
      ensures Explained(o, f, BoundaryReady(spec, orig) && SnapshotReady(spec))
    {
      o := Finished;
      for i := 0 to |spec.snapshot|
        invariant InTransaction(orig) && JournalGrows() && o.Finished?
        invariant journal.value.tx == old(journal).value.tx.(snapshot := journal.value.tx.snapshot)
        invariant forall p :: !IsEntry(spec, p) ==> At(tree, p) == old(At(tree, p))
        invariant IsDir(tree, spec.boundary) && EntriesPlaced(i)
      {
        o := InstallNext(i, f, orig);
        if !o.Finished? {
          return;
        }
      }
    }

    /** One more entry leaves the earlier ones in place. */
    method InstallNext(i: nat, f: Faults, ghost orig: Tree) returns (o: Outcome)
      requires InTransaction(orig) && SnapshotLayout(spec) && OneManifest(spec) && i < |spec.snapshot| && EntriesPlaced(i)
      requires IsDir(tree, spec.boundary) && !IsEntry(spec, spec.boundary)
      modifies `tree, `journal
      ensures InTransaction(orig) && JournalGrows()
      ensures forall p :: !IsEntry(spec, p) ==> At(tree, p) == old(At(tree, p))
      ensures journal.value.tx == old(journal).value.tx.(snapshot := journal.value.tx.snapshot)
      ensures IsDir(tree, spec.boundary) && (o.Finished? ==> EntriesPlaced(i + 1))
      ensures Explained(o, f, BoundaryReady(spec, orig) && SnapshotReady(spec))
    {
      EnclosureStands(i);
      ghost var before, tx := tree, journal.value.tx;
      assert IsEntry(spec, EntryPath(spec, spec.snapshot[i]));
      o := InstallEntry(i, f, orig);
      assert At(tree, spec.boundary) == At(before, spec.boundary);
      forall j | 0 <= j < i ensures EntryPlaced(spec.snapshot[j]) {
        EntryPathsDiffer(spec, i, j);
        var p := EntryPath(spec, spec.snapshot[j]);
        assert At(tree, p) == At(before, p);
        SnapshotGrows(spec, tx, journal.value.tx, p);
      }
    }

    /** The directory of the next entry is in place. */
    lemma EnclosureStands(i: nat)
      requires SnapshotLayout(spec) && i < |spec.snapshot| && EntriesPlaced(i) && IsDir(tree, spec.boundary)
      ensures SnapshotReady(spec) ==> IsDir(tree, Parent(EntryPath(spec, spec.snapshot[i])))
    {
      if !SnapshotReady(spec) {
        return;
      }
      assert EntryReady(spec, i);
      var e := spec.snapshot[i];
      if |e.path| == 1 {
        assert Parent(EntryPath(spec, e)) == spec.boundary;
      } else {
        var j :| 0 <= j < |spec.snapshot| && Encloses(spec.snapshot[j], e);
        assert Parent(EntryPath(spec, e)) == EntryPath(spec, spec.snapshot[j]);
        assert EntryPlaced(spec.snapshot[j]);
      }
    }

    /** The first half of `_install_repository_snapshot`: open the boundary and place its manifest. */
    method InstallManifest(f: Faults, ghost orig: Tree) returns (o: Outcome)
      requires InTransaction(orig) && OneManifest(spec) && DistinctFiles(spec) && BoundaryIsShallow(spec)
      requires spec.boundary in journal.value.tx.resources && IsDirectory(spec, spec.boundary)
      requires spec.boundary != [] && spec.boundary != spec.stop && spec.boundary != spec.runtimeRoot
      modifies `tree, `journal, `backups
      ensures InTransaction(orig) && JournalGrows() && RuntimeKept()
      ensures forall p :: p != spec.boundary && p != ManifestTarget(spec) ==> At(tree, p) == old(At(tree, p))
      ensures o.Finished? ==> ManifestInstalled(spec, tree) && IsDir(tree, spec.boundary)
      ensures o.Finished? ==>
                forall q :: q in old(tree) && q != [] && Parent(q) == spec.boundary ==>
                  q == ManifestTarget(spec) || q[|spec.boundary|..] in old(journal).value.tx.snapshot
      ensures Explained(o, f, BoundaryReady(spec, orig) && WellTyped(spec, orig, ManifestTarget(spec)) && IsDir(old(tree), spec.boundary))
    {
      var manifest := spec.files[spec.manifestIndex];
      assert IsFile(spec, manifest.target);
      if !IsDir(tree, spec.boundary) {
        return Raised;
      }
      if q :| q in tree && q != [] && Parent(q) == spec.boundary && q != manifest.target
              && q[|spec.boundary|..] !in journal.value.tx.snapshot
      {
        if BoundaryReady(spec, orig) {
          NoStranger(spec, orig, tree, journal.value.tx, backups, q);
        }
        return Raised;
      }
      assert Consider(spec.boundary);
      var ok := WriteTarget(spec.boundary, Chmod(tree[spec.boundary], MODE_0700), orig);
      if !ok {
        return Raised;
      }
      o := InstallTarget(manifest.target, File(manifest.content, MODE_0444, ROOT), f, orig);
    }

    /** `_install_repository_snapshot`; its `finally` closes the boundary unless the process is gone. */
    method InstallSnapshot(f: Faults, ghost orig: Tree) returns (o: Outcome)
      requires InTransaction(orig) && SnapshotLayout(spec) && OneManifest(spec) && DistinctFiles(spec) && BoundaryIsShallow(spec)
      requires spec.boundary in journal.value.tx.resources && IsDirectory(spec, spec.boundary)
      requires spec.boundary != [] && spec.boundary != spec.stop && spec.boundary != spec.runtimeRoot
      modifies `tree, `journal, `backups
      ensures InTransaction(orig) && JournalGrows() && RuntimeKept()
      ensures forall p :: p != spec.boundary && p != ManifestTarget(spec) && !IsEntry(spec, p) ==> At(tree, p) == old(At(tree, p))
      ensures o.Finished? ==>
                && SnapshotInstalled(spec, tree) && ManifestInstalled(spec, tree) && AllRecorded(spec, journal.value.tx)
                && At(tree, spec.boundary) == Some(Dir(MODE_0555, ROOT))
      ensures Explained(o, f, BoundaryReady(spec, orig) && SnapshotReady(spec)
                              && WellTyped(spec, orig, ManifestTarget(spec)) && IsDir(old(tree), spec.boundary))
    {
      assert IsFile(spec, ManifestTarget(spec)) && Entered(spec.boundary);
      o := InstallManifest(f, orig);
      if o.Finished? {
        NotAnEntry(spec, spec.boundary);
        NotAnEntry(spec, ManifestTarget(spec));
        NotAnEntry(spec, spec.runtimeRoot);
        o := FillSnapshot(f, orig);
      }
    }

    method FillSnapshot(f: Faults, ghost orig: Tree) returns (o: Outcome)
      requires InTransaction(orig) && SnapshotLayout(spec) && OneManifest(spec) && !IsEntry(spec, spec.boundary)
      requires spec.boundary in journal.value.tx.resources && IsDirectory(spec, spec.boundary) && IsDir(tree, spec.boundary)
      requires spec.boundary != [] && spec.boundary != spec.stop
      modifies `tree, `journal
      ensures InTransaction(orig) && JournalGrows() && journal.value.tx.runtime == old(journal).value.tx.runtime
      ensures forall p :: p != spec.boundary && !IsEntry(spec, p) ==> At(tree, p) == old(At(tree, p))
      ensures o.Finished? ==>
                && SnapshotInstalled(spec, tree) && AllRecorded(spec, journal.value.tx)
                && At(tree, spec.boundary) == Some(Dir(MODE_0555, ROOT))
      ensures Explained(o, f, BoundaryReady(spec, orig) && SnapshotReady(spec))
    {
      assert Entered(spec.boundary);
      ghost var before := tree;
      o := InstallEntries(f, orig);
      if !o.Killed? {
        assert At(tree, spec.boundary) == At(before, spec.boundary);
        if o.Finished? {
          SnapshotStays(spec, tree, Dir(MODE_0555, ROOT));
        }
        CloseBoundary(orig);
      }
    }

    method CloseBoundary(ghost orig: Tree)
      requires InTransaction(orig) && spec.boundary in journal.value.tx.resources && IsDirectory(spec, spec.boundary)
      requires spec.boundary != [] && spec.boundary != spec.stop && spec.boundary in tree
      modifies `tree
      ensures InTransaction(orig) && tree == old(tree)[spec.boundary := Dir(MODE_0555, ROOT)]
    {
      assert Consider(spec.boundary);
      var ok := WriteTarget(spec.boundary, Dir(MODE_0555, ROOT), orig);
    }

    // ----- Rollback of the tree ---------------------------------------------------------------------

    /** The runtime root and the STOP marker are untouched. */
    twostate predicate AsideKept()
      reads this
    {
      At(tree, spec.runtimeRoot) == At(old(tree), spec.runtimeRoot) && At(tree, spec.stop) == At(old(tree), spec.stop)
    }

    /** A directory that rollback is to empty is open. */
    ghost predicate IsOpen(p: Path)
      reads this
    {
      IsDir(tree, p) ==> tree[p].mode == MODE_0700
    }

    ghost predicate AllOpen()
      reads this
    {
      && journal.Some? && IsOpen(spec.boundary)
      && forall i {:trigger journal.value.tx.snapshot[i]} :: 0 <= i < |journal.value.tx.snapshot| ==> IsOpen(spec.boundary + journal.value.tx.snapshot[i])
    }

    /** Rollback opens the boundary and every recorded directory below it. */
    method OpenBoundary(f: Faults, ghost orig: Tree) returns (done: bool)
      requires InTransaction(orig) && IsDirectory(spec, spec.boundary)
      requires spec.boundary != spec.runtimeRoot && spec.boundary != spec.stop
      modifies `tree
      ensures InTransaction(Target(spec, orig, journal.value.tx))
      ensures AsideKept() && (!done ==> f.raise || f.kill)
      ensures done ==> AllOpen()
    {
      ghost var base := Target(spec, orig, journal.value.tx);
      assert Consider(spec.boundary);
      if IsDir(tree, spec.boundary) {
        BoundaryChmodKeeps(spec, orig, tree, journal.value.tx, backups);
        tree := tree[spec.boundary := Chmod(tree[spec.boundary], MODE_0700)];
      }
      var recorded := journal.value.tx.snapshot;
      for i := 0 to |recorded|
        invariant InTransaction(base) && AsideKept() && IsOpen(spec.boundary)
        invariant forall j :: 0 <= j < i ==> IsOpen(spec.boundary + recorded[j])
      {
        OpenEntry(recorded[i], base);
        var cut := Cut(f);
        if cut {
          return false;
        }
      }
      done := true;
    }

    method OpenEntry(rel: Path, ghost base: Tree)
      requires InTransaction(base) && rel in journal.value.tx.snapshot
      modifies `tree
      ensures InTransaction(base) && AsideKept()
      ensures IsOpen(spec.boundary + rel) && forall p :: old(IsOpen(p)) ==> IsOpen(p)
    {
      var target := spec.boundary + rel;
      if IsDir(tree, target) {
        assert Consider(target) && Consider(rel);
        assert target[..|spec.boundary|] == spec.boundary && target[|spec.boundary|..] == rel;
        assert InSnapshot(spec, journal.value.tx, target);
        ChmodKeepsEntry(spec, target, tree[target], MODE_0700);
        SnapshotWriteKeeps(spec, base, tree, journal.value.tx, backups, target, Chmod(tree[target], MODE_0700));
        tree := tree[target := Chmod(tree[target], MODE_0700)];
      }
    }

    /** Recorded snapshot entries go, deepest first. */
    method RemoveEntries(f: Faults, ghost base: Tree) returns (done: bool)
      requires InTransaction(base) && OneManifest(spec) && BoundaryIsShallow(spec) && AllOpen()
      modifies `tree
      ensures InTransaction(base) && (done ==> SnapshotGone(spec, tree, journal.value.tx))
      ensures AsideKept() && (!done ==> f.raise || f.kill)
    {
      var order := SortDeepestFirst(journal.value.tx.snapshot);
      for i := 0 to |order|
        invariant InTransaction(base) && AsideKept()
        invariant forall j :: 0 <= j < i ==> spec.boundary + order[j] !in tree
      {
        var target := spec.boundary + order[i];
        assert order[i] in journal.value.tx.snapshot && Consider(order[i]);
        EntryCanGo(spec, base, tree, journal.value.tx, backups, order, i);
        if target in tree && (tree[target].File? || (tree[target].Dir? && !HasChild(tree, target))) {
          tree := tree - {target};
        }
        var cut := Cut(f);
        if cut {
          return false;
        }
      }
      done := true;
      forall p | InSnapshot(spec, journal.value.tx, p) ensures p !in tree {
        var r := p[|spec.boundary|..];
        assert r in order && p == spec.boundary + r;
      }
    }

    /** Saved files get their bytes, mode and owner back; added files go. */
    method RestoreFiles(f: Faults, ghost base: Tree) returns (done: bool)
      requires InTransaction(base) && DistinctFiles(spec) && SnapshotGone(spec, tree, journal.value.tx)
      modifies `tree
      ensures InTransaction(base) && SnapshotGone(spec, tree, journal.value.tx)
      ensures done ==> FilesSettled(spec, base, tree, journal.value.tx)
      ensures AsideKept() && (!done ==> f.raise || f.kill)
    {
      var tx := journal.value.tx;
      var i := |spec.files|;
      while i > 0
        invariant 0 <= i <= |spec.files|
        invariant InTransaction(base) && SnapshotGone(spec, tree, tx)
        invariant AsideKept()
        invariant forall j :: i <= j < |spec.files| && spec.files[j].target in tx.resources ==>
                    At(tree, spec.files[j].target) == At(base, spec.files[j].target)
      {
        i := i - 1;
        RestoreFile(i, base);
        var cut := Cut(f);
        if cut {
          return false;
        }
      }
      done := true;
      forall k | k in tx.resources && IsFile(spec, k) ensures At(tree, k) == At(base, k) {
        var j :| 0 <= j < |spec.files| && spec.files[j].target == k && spec.files[j].role != RuntimeExecutable;
      }
    }

    method RestoreFile(i: nat, ghost base: Tree)
      requires InTransaction(base) && DistinctFiles(spec) && i < |spec.files| && SnapshotGone(spec, tree, journal.value.tx)
      modifies `tree
      ensures InTransaction(base) && SnapshotGone(spec, tree, journal.value.tx)
      ensures forall p :: p != spec.files[i].target ==> At(tree, p) == old(At(tree, p))
      ensures spec.files[i].target in journal.value.tx.resources ==>
                At(tree, spec.files[i].target) == At(base, spec.files[i].target)
    {
      var tx, k := journal.value.tx, spec.files[i].target;
      if k in tx.resources {
        assert Consider(k);
        var saved := tx.resources[k];
        if saved.existed {
          assert k != [] ==> IsDir(tree, Parent(k));
          WriteKeeps(spec, base, tree, tx, backups, k, File(backups[k], saved.mode, saved.owner));
          tree := tree[k := File(backups[k], saved.mode, saved.owner)];
        } else if k in tree {
          FilesHaveNoChildren(tree, k);
          RemoveKeeps(spec, base, tree, tx, backups, k);
          tree := tree - {k};
        }
      }
    }

    /** The recorded runtime distribution goes, entry by entry. */
    method RemoveRuntime(f: Faults, ghost base: Tree) returns (done: bool)
      requires InTransaction(base) && !Managed(spec, spec.runtimeRoot)
      requires SnapshotGone(spec, tree, journal.value.tx) && FilesSettled(spec, base, tree, journal.value.tx)
      modifies `tree
      ensures InTransaction(base) && At(tree, spec.stop) == old(At(tree, spec.stop)) && (!done ==> f.raise || f.kill)
      ensures done ==> RuntimeGone(spec, tree, journal.value.tx)
      ensures done ==> (spec.runtimeRoot in tree <==> spec.runtimeRoot in old(tree) && !journal.value.tx.runtime)
      ensures done ==> SnapshotGone(spec, tree, journal.value.tx) && FilesSettled(spec, base, tree, journal.value.tx)
    {
      if journal.value.tx.runtime && spec.runtimeRoot in tree {
        BeginRemoval(base);
        var cut := Cut(f);
        if cut {
          return false;
        }
        assert Consider(spec.runtimeRoot);
        FilesHaveNoChildren(tree, spec.runtimeRoot);
        RemoveKeeps(spec, base, tree, journal.value.tx, backups, spec.runtimeRoot);
        tree := tree - {spec.runtimeRoot};
      }
      done := true;
    }

    /** Its directories are opened and its first entries are gone. */
    method BeginRemoval(ghost base: Tree)
      requires InTransaction(base) && !Managed(spec, spec.runtimeRoot) && journal.value.tx.runtime && spec.runtimeRoot in tree
      modifies `tree
      ensures InTransaction(base) && tree == old(tree)[spec.runtimeRoot := Subtree(spec.runtime, false)]
    {
      RuinKeeps(spec, base, tree, journal.value.tx, backups);
      tree := tree[spec.runtimeRoot := Subtree(spec.runtime, false)];
    }

    /** Saved directories get their mode and owner back; added ones go if they are empty. */
    method RestoreDirectories(f: Faults, ghost base: Tree) returns (done: bool)
      requires InTransaction(base) && DistinctDirectories(spec) && DistinctFiles(spec) && ParentsFirst(spec)
      requires SnapshotGone(spec, tree, journal.value.tx) && FilesSettled(spec, base, tree, journal.value.tx)
      requires RuntimeGone(spec, tree, journal.value.tx)
      modifies `tree
      ensures InTransaction(base) && (done ==> Settled(spec, base, tree))
      ensures AsideKept() && (!done ==> f.raise || f.kill)
    {
      var tx := journal.value.tx;
      var i := |spec.directories|;
      while i > 0
        invariant 0 <= i <= |spec.directories|
        invariant InTransaction(base) && RuntimeGone(spec, tree, tx)
        invariant AsideKept()
        invariant SnapshotGone(spec, tree, tx) && FilesSettled(spec, base, tree, tx)
        invariant DirectoriesSettled(spec, base, tree, tx, i)
      {
        i := i - 1;
        RestoreDirectory(i, base);
        var cut := Cut(f);
        if cut {
          return false;
        }
      }
      done := true;
      EverythingSettled(spec, base, tree, tx, backups);
    }

    method RestoreDirectory(i: nat, ghost base: Tree)
      requires i < |spec.directories|
      requires InTransaction(base) && DistinctDirectories(spec) && DistinctFiles(spec) && ParentsFirst(spec)
      requires SnapshotGone(spec, tree, journal.value.tx) && FilesSettled(spec, base, tree, journal.value.tx)
      requires RuntimeGone(spec, tree, journal.value.tx)
      requires DirectoriesSettled(spec, base, tree, journal.value.tx, i + 1)
      modifies `tree
      ensures InTransaction(base)
      ensures SnapshotGone(spec, tree, journal.value.tx) && FilesSettled(spec, base, tree, journal.value.tx)
      ensures RuntimeGone(spec, tree, journal.value.tx)
      ensures DirectoriesSettled(spec, base, tree, journal.value.tx, i)
      ensures AsideKept()
    {
      ghost var before := tree;
      SettleDirectory(i, base);
      OneMoreSettled(spec, base, before, tree, journal.value.tx, i);
    }

    method SettleDirectory(i: nat, ghost base: Tree)
      requires i < |spec.directories|
      requires InTransaction(base) && DistinctDirectories(spec) && ParentsFirst(spec)
      requires SnapshotGone(spec, tree, journal.value.tx) && FilesSettled(spec, base, tree, journal.value.tx)
      requires RuntimeGone(spec, tree, journal.value.tx) && DirectoriesSettled(spec, base, tree, journal.value.tx, i + 1)
      modifies `tree
      ensures InTransaction(base)
      ensures var d := spec.directories[i].target;
              && (forall p :: p != d ==> At(tree, p) == old(At(tree, p))) && (d in tree ==> d in old(tree))
              && (d in journal.value.tx.resources ==> At(tree, d) == At(base, d) || Leftover(spec, base, old(tree), d))
    {
      var tx := journal.value.tx;
      var d := spec.directories[i].target;
      if d !in tx.resources {
        return;
      }
      assert IsDirectory(spec, d) && Consider(d);
      if d !in base && !Leftover(spec, base, tree, d) {
        AddedDirectoryIsEmpty(spec, base, tree, tx, backups, i);
      }
      var saved := tx.resources[d];
      if saved.existed && IsDir(tree, d) {
        WriteKeeps(spec, base, tree, tx, backups, d, Dir(saved.mode, saved.owner));
        tree := tree[d := Dir(saved.mode, saved.owner)];
      } else if IsDir(tree, d) && !HasChild(tree, d) {
        RemoveKeeps(spec, base, tree, tx, backups, d);
        tree := tree - {d};
      }
    }

    /** The file-system half of `rollback`; it may be cut short anywhere. */
    method RollbackTree(f: Faults, ghost orig: Tree) returns (done: bool)
      requires InTransaction(orig) && Layout(spec)
      modifies `tree
      ensures var base := Target(spec, orig, journal.value.tx); InTransaction(base) && (done ==> Settled(spec, base, tree))
      ensures !done ==> f.raise || f.kill
      ensures At(tree, spec.stop) == old(At(tree, spec.stop))
      ensures done ==> (spec.runtimeRoot in tree <==> spec.runtimeRoot in old(tree) && !journal.value.tx.runtime)
    {
      ghost var base := Target(spec, orig, journal.value.tx);
      BoundaryFacts(spec);
      DirectoryFacts(spec);
      ContentFacts(spec);
      done := OpenBoundary(f, orig);
      if done {
        done := RemoveEntries(f, base);
      }
      if done {
        done := RestoreFiles(f, base);
      }
      if done {
        done := RemoveRuntime(f, base);
      }
      if done {
        done := RestoreDirectories(f, base);
      }
    }

    // ----- systemd units ------------------------------------------------------------------------------

    function StateOf(u: Unit): UnitState
      reads this
    {
      if u in units then units[u] else UnitState(false, false)
    }

    /** The unit roster: distinct managed units, and a controller that is never among those started. */
    ghost predicate Roster() {
      && (forall i, j :: 0 <= i < j < |managedUnits| ==> managedUnits[i] != managedUnits[j])
      && controller !in pathUnits && authority != controller
    }

    ghost predicate ControllerNeverStarted()
      reads this
    {
      forall t :: t in log ==> t != Start(controller) && t != Restart(controller)
    }

    /** The journal holds a baseline for every managed unit, with the controller stopped, and until
        system effects begin the units are still in it. */
    ghost predicate BaselineKept()
      reads this
    {
      && journal.Some?
      && (forall u :: u in managedUnits ==> u in journal.value.baseline)
      && (controller in journal.value.baseline ==> !journal.value.baseline[controller].active)
      && (!journal.value.systemEffects ==>
            forall u :: u in managedUnits ==> StateOf(u) == journal.value.baseline[u])
    }

    predicate HasUnitFile(u: Unit)
      reads this
    {
      HoldsFile(tree, UnitPath(u))
    }

    /** Enabled as before; active as before, unless the unit file is gone. */
    ghost predicate UnitIsBack(u: Unit, b: map<Unit, UnitState>)
      reads this
    {
      && u in b
      && StateOf(u).enabled == b[u].enabled
      && (StateOf(u).active == b[u].active
          || (b[u].active && !StateOf(u).active && !HoldsFile(tree, ["etc", "systemd", "system", u])))
    }

    /** The installer never makes the controller active. */
    twostate predicate ControllerStays()
      reads this
    {
      StateOf(controller).active ==> old(StateOf(controller).active)
    }

    /** `_unit_transition`: a failed action changes nothing but is on record as attempted. */
    method Transit(t: Transition, f: Faults) returns (ok: bool)
      modifies `units, `log
      ensures log == old(log) + [t]
      ensures forall u :: u != t.unit || !ok ==> StateOf(u) == old(StateOf(u))
      ensures ok ==> StateOf(t.unit) == Effect(old(StateOf(t.unit)), t)
      ensures !ok ==> f.raise
    {
      log := log + [t];
      ok := true;
      if * {
        ok := !f.raise;
      }
      if ok {
        units := units[t.unit := Effect(StateOf(t.unit), t)];
      }
    }

    /** No managed unit runs, the controller aside. */
    ghost predicate Quiet()
      reads this
    {
      forall u :: u in managedUnits && u != controller ==> !StateOf(u).active
    }

    /** Whatever was not active before the transaction is stopped. */
    ghost predicate AddedStopped()
      reads this
    {
      journal.Some? && forall u :: u in managedUnits && u in journal.value.baseline && StateOf(u).active ==> journal.value.baseline[u].active
    }

    /** `_quiesce_managed_units_before_replacement`. */
    method Quiesce(f: Faults) returns (o: Outcome)
      requires BaselineKept() && ControllerNeverStarted()
      modifies `journal, `units, `log
      ensures BaselineKept() && ControllerNeverStarted() && ControllerStays()
      ensures journal.value == old(journal).value.(systemEffects := true, quiesced := journal.value.quiesced)
      ensures o.Finished? ==> journal.value.quiesced && Quiet()
      ensures journal.value.quiesced ==> old(journal).value.quiesced || Quiet()
      ensures Explained(o, f, true)
    {
      journal := Some(journal.value.(systemEffects := true));
      o := Interrupt(f);
      if !o.Finished? {
        return;
      }
      var i := |managedUnits|;
      while i > 0
        invariant 0 <= i <= |managedUnits|
        invariant BaselineKept() && ControllerNeverStarted() && ControllerStays()
        invariant journal.value == old(journal).value.(systemEffects := true)
        invariant forall j :: i <= j < |managedUnits| && managedUnits[j] != controller ==> !StateOf(managedUnits[j]).active
      {
        i := i - 1;
        var u := managedUnits[i];
        if u != controller && StateOf(u).active {
          var ok := Transit(Stop(u), f);
          if !ok {
            return Raised;
          }
        }
      }
      journal := Some(journal.value.(quiesced := true));
      o := Interrupt(f);
    }

    /** `_reload_and_leave_controller_stopped`. */
    method ReloadAndLeaveControllerStopped(f: Faults) returns (o: Outcome)
      requires BaselineKept() && ControllerNeverStarted() && journal.value.systemEffects
      modifies `journal, `units, `log
      ensures BaselineKept() && ControllerNeverStarted() && ControllerStays()
      ensures journal.value == old(journal).value.(reloaded := journal.value.reloaded)
      ensures o.Finished? ==> journal.value.reloaded && old(journal).value.quiesced && StateOf(controller) == UnitState(false, false)
      ensures Explained(o, f, old(journal).value.quiesced && !old(StateOf(controller).active))
    {
      if !journal.value.quiesced {
        return Raised;
      }
      journal := Some(journal.value.(reloaded := true));
      o := Interrupt(f);
      if !o.Finished? {
        return;
      }
      if StateOf(controller).active {
        return Raised;
      }
      if StateOf(controller).enabled {
        var ok := Transit(Disable(controller), f);
        if !ok {
          return Raised;
        }
      }
    }

    /** The unit was started or restarted since the log had `n` entries. */
    ghost predicate Launched(u: Unit, n: nat)
      reads this
    {
      n <= |log| && (Start(u) in log[n..] || Restart(u) in log[n..])
    }

    /** Start one path unit, enabling it first if needed. */
    method EnablePath(u: Unit, f: Faults) returns (ok: bool)
      requires BaselineKept() && ControllerNeverStarted() && journal.value.systemEffects && u != controller
      modifies `units, `log
      ensures BaselineKept() && ControllerNeverStarted()
      ensures forall v :: v != u ==> StateOf(v) == old(StateOf(v))
      ensures ok ==> StateOf(u) == UnitState(true, true)
      ensures old(log) <= log
      ensures ok ==> |log| > |old(log)| && log[|log| - 1] == if old(StateOf(u).active) then Restart(u) else Start(u)
      ensures !ok ==> f.raise
    {
      ok := true;
      if !StateOf(u).enabled {
        ok := Transit(Enable(u), f);
        if !ok {
          return;
        }
      }
      ok := Transit(if StateOf(u).active then Restart(u) else Start(u), f);
    }

    /** `_enable_paths_after_attestation`. */
    method EnablePaths(f: Faults) returns (o: Outcome)
      requires BaselineKept() && ControllerNeverStarted() && Roster() && journal.value.systemEffects
      modifies `units, `log
      ensures BaselineKept() && ControllerNeverStarted() && StateOf(controller) == old(StateOf(controller))
      ensures o.Finished? ==> forall u :: u in pathUnits ==> StateOf(u) == UnitState(true, true) && Launched(u, |old(log)|)
      ensures old(log) + [Start(authority)] <= log
      ensures o.Finished? && authority !in pathUnits ==> !StateOf(authority).active
      ensures Explained(o, f, true)
    {
      o := Finished;
      var ok := Transit(Start(authority), f);
      if !ok {
        return Raised;
      }
      if StateOf(authority).active {
        ok := Transit(Stop(authority), f);
        if !ok {
          return Raised;
        }
      }
      for i := 0 to |pathUnits|
        invariant BaselineKept() && ControllerNeverStarted() && o.Finished?
        invariant StateOf(controller) == old(StateOf(controller))
        invariant forall j :: 0 <= j < i ==> StateOf(pathUnits[j]) == UnitState(true, true) && Launched(pathUnits[j], |old(log)|)
        invariant old(log) + [Start(authority)] <= log
        invariant authority !in pathUnits ==> !StateOf(authority).active
      {
        ok := EnablePath(pathUnits[i], f);
        if !ok {
          return Raised;
        }
        o := Interrupt(f);
        if !o.Finished? {
          return;
        }
      }
    }

    /** The first loop of `rollback`: stop what was not active before. */
    method StopAdded(f: Faults) returns (ok: bool)
      requires BaselineKept() && ControllerNeverStarted() && journal.value.systemEffects
      modifies `units, `log
      ensures BaselineKept() && ControllerNeverStarted()
      ensures ok ==> AddedStopped()
      ensures !ok ==> f.raise
    {
      var i := |managedUnits|;
      while i > 0
        invariant 0 <= i <= |managedUnits|
        invariant BaselineKept() && ControllerNeverStarted()
        invariant forall j :: i <= j < |managedUnits| && StateOf(managedUnits[j]).active ==> journal.value.baseline[managedUnits[j]].active
      {
        i := i - 1;
        var u := managedUnits[i];
        if !journal.value.baseline[u].active && StateOf(u).active {
          var done := Transit(Stop(u), f);
          if !done {
            return false;
          }
        }
      }
      return true;
    }

    /** The last loop of `rollback`: bring every unit back to its baseline. */
    method RestoreUnits(f: Faults) returns (ok: bool)
      requires BaselineKept() && ControllerNeverStarted() && Roster() && journal.value.systemEffects
      modifies `units, `log
      ensures BaselineKept() && ControllerNeverStarted()
      ensures ok ==> forall u :: u in managedUnits ==> UnitIsBack(u, journal.value.baseline)
      ensures ok ==> forall u :: u in managedUnits && journal.value.baseline[u].active && HasUnitFile(u) ==> Launched(u, |old(log)|)
      ensures !ok ==> f.raise
    {
      for i := 0 to |managedUnits|
        invariant BaselineKept() && ControllerNeverStarted() && old(log) <= log
        invariant forall j :: 0 <= j < i ==> UnitIsBack(managedUnits[j], journal.value.baseline)
        invariant forall j :: 0 <= j < i && journal.value.baseline[managedUnits[j]].active && HasUnitFile(managedUnits[j]) ==>
                    Launched(managedUnits[j], |old(log)|)
      {
        var done := RestoreUnit(managedUnits[i], f);
        if !done {
          return false;
        }
      }
      return true;
    }

    method RestoreUnit(u: Unit, f: Faults) returns (ok: bool)
      requires BaselineKept() && ControllerNeverStarted() && journal.value.systemEffects && u in managedUnits
      modifies `units, `log
      ensures BaselineKept() && ControllerNeverStarted()
      ensures forall v :: v != u ==> StateOf(v) == old(StateOf(v))
      ensures ok ==> UnitIsBack(u, journal.value.baseline)
      ensures old(log) <= log
      ensures ok && journal.value.baseline[u].active && HasUnitFile(u) ==>
                |log| > |old(log)| && log[|log| - 1] == if old(StateOf(u).active) then Restart(u) else Start(u)
      ensures !ok ==> f.raise
    {
      ok := true;
      var b := journal.value.baseline[u];
      if StateOf(u).enabled != b.enabled {
        ok := Transit(if b.enabled then Enable(u) else Disable(u), f);
        if !ok {
          return;
        }
      }
      ok := RestoreActivity(u, f);
    }

    method RestoreActivity(u: Unit, f: Faults) returns (ok: bool)
      requires BaselineKept() && ControllerNeverStarted() && journal.value.systemEffects && u in managedUnits
      modifies `units, `log
      ensures BaselineKept() && ControllerNeverStarted()
      ensures forall v :: v != u ==> StateOf(v) == old(StateOf(v))
      ensures ok ==>
                && StateOf(u).enabled == old(StateOf(u).enabled)
                && StateOf(u).active == (journal.value.baseline[u].active && HasUnitFile(u))
      ensures old(log) <= log
      ensures ok && journal.value.baseline[u].active && HasUnitFile(u) ==>
                log == old(log) + [if old(StateOf(u).active) then Restart(u) else Start(u)]
      ensures !ok ==> f.raise
    {
      ok := true;
      var b := journal.value.baseline[u];
      if b.active {
        if !HasUnitFile(u) {
          if StateOf(u).active {
            ok := Transit(Stop(u), f);
          }
        } else {
          ok := Transit(if StateOf(u).active then Restart(u) else Start(u), f);
        }
      } else if StateOf(u).active {
        ok := Transit(Stop(u), f);
      }
    }

    // ----- The whole transaction ------------------------------------------------------------------------

    /** The managed directories stand, and the boundary is journalled. */
    ghost predicate Laid()
      reads this
    {
      && journal.Some? && DirectoriesInstalled(spec, tree, |spec.directories|)
      && spec.boundary in journal.value.tx.resources && IsDir(tree, spec.boundary)
    }

    method LayDirectories(f: Faults, ghost orig: Tree) returns (o: Outcome)
      requires InTransaction(orig) && Layout(spec)
      modifies `tree, `journal, `backups
      ensures InTransaction(orig) && JournalGrows() && RuntimeKept()
      ensures o.Finished? ==> Laid()
      ensures Explained(o, f, DirectoriesReady(spec, orig))
    {
      DirectoryFacts(spec);
      o := EnsureDirectories(f, orig);
      if o.Finished? {
        BoundaryFacts(spec);
        InstalledDirectory(spec, tree, journal.value.tx, spec.boundary);
      }
    }

    method PlaceMarker(f: Faults, ghost orig: Tree) returns (o: Outcome)
      requires InTransaction(orig) && Layout(spec) && Laid()
      modifies `tree, `journal, `backups
      ensures InTransaction(orig) && JournalGrows() && RuntimeKept() && Laid()
      ensures o.Finished? ==> At(tree, spec.stop) == Some(StopNode(spec, orig)) && StopReady(spec, orig)
      ensures Explained(o, f, MarkerReady(spec, orig))
    {
      DirectoryFacts(spec);
      BoundaryFacts(spec);
      PlaceFits(spec, orig, tree, journal.value.tx, backups, spec.stop);
      ghost var before := tree;
      assert Entered(spec.boundary);
      o := EnsureStopMarker(f, orig);
      DirectoriesStay(spec, before, tree, spec.stop);
      assert At(tree, spec.boundary) == At(before, spec.boundary);
    }

    method PlaceDistribution(f: Faults, ghost orig: Tree) returns (o: Outcome)
      requires InTransaction(orig) && Layout(spec) && Laid()
      modifies `tree, `journal
      ensures InTransaction(orig) && JournalGrows() && Laid()
      ensures At(tree, spec.stop) == old(At(tree, spec.stop))
      ensures o.Finished? ==>
                && At(tree, spec.runtimeRoot) == Some(Subtree(spec.runtime, true)) && journal.value.tx.runtime
                && !Obstructed(spec, orig, old(tree), old(journal).value.tx)
      ensures Explained(o, f, DistributionReady(spec, orig) && !Obstructed(spec, orig, old(tree), old(journal).value.tx))
      ensures Obstructed(spec, orig, tree, journal.value.tx) ==> f.window || Obstructed(spec, orig, old(tree), old(journal).value.tx)
    {
      DirectoryFacts(spec);
      BoundaryFacts(spec);
      PlaceFits(spec, orig, tree, journal.value.tx, backups, spec.runtimeRoot);
      ghost var before := tree;
      assert Entered(spec.boundary);
      o := InstallRuntime(f, orig);
      DirectoriesStay(spec, before, tree, spec.runtimeRoot);
      assert At(tree, spec.boundary) == At(before, spec.boundary);
    }

    method LayAndMark(f: Faults, ghost orig: Tree) returns (o: Outcome)
      requires InTransaction(orig) && Layout(spec)
      modifies `tree, `journal, `backups
      ensures InTransaction(orig) && JournalGrows() && RuntimeKept()
      ensures o.Finished? ==> Laid() && At(tree, spec.stop) == Some(StopNode(spec, orig)) && StopReady(spec, orig)
      ensures Explained(o, f, DirectoriesReady(spec, orig) && MarkerReady(spec, orig))
    {
      o := LayDirectories(f, orig);
      if o.Finished? {
        o := PlaceMarker(f, orig);
      }
    }

    /** The directories, the STOP marker and the runtime. */
    method InstallFoundation(f: Faults, ghost orig: Tree) returns (o: Outcome)
      requires InTransaction(orig) && Layout(spec)
      modifies `tree, `journal, `backups
      ensures InTransaction(orig) && JournalGrows()
      ensures o.Finished? ==>
                && Laid() && Founded(spec, orig, tree) && StopReady(spec, orig) && journal.value.tx.runtime
                && !Obstructed(spec, orig, old(tree), old(journal).value.tx)
      ensures Explained(o, f, FoundationReady(spec, orig) && !Obstructed(spec, orig, old(tree), old(journal).value.tx))
      ensures Obstructed(spec, orig, tree, journal.value.tx) ==> f.window || Obstructed(spec, orig, old(tree), old(journal).value.tx)
    {
      o := LayAndMark(f, orig);
      if o.Finished? {
        o := PlaceDistribution(f, orig);
      }
    }

    method FillFiles(f: Faults, ghost orig: Tree) returns (o: Outcome)
      requires InTransaction(orig) && Layout(spec) && Laid()
      modifies `tree, `journal, `backups
      ensures InTransaction(orig) && JournalGrows() && RuntimeKept() && Laid()
      ensures forall p :: !IsFile(spec, p) ==> At(tree, p) == old(At(tree, p))
      ensures o.Finished? ==> FilesInstalled(spec, tree, |spec.files|)
      ensures Explained(o, f, FilesReady(spec, orig))
    {
      BoundaryFacts(spec);
      ContentFacts(spec);
      assert Entered(spec.boundary);
      ghost var before := tree;
      o := InstallFiles(f, orig);
      assert At(tree, spec.boundary) == At(before, spec.boundary);
    }

    method FillBoundary(f: Faults, ghost orig: Tree) returns (o: Outcome)
      requires InTransaction(orig) && Layout(spec) && Laid()
      modifies `tree, `journal, `backups
      ensures InTransaction(orig) && JournalGrows() && RuntimeKept()
      ensures forall p :: p != spec.boundary && p != ManifestTarget(spec) && !IsEntry(spec, p) ==> At(tree, p) == old(At(tree, p))
      ensures o.Finished? ==>
                && SnapshotInstalled(spec, tree) && ManifestInstalled(spec, tree) && AllRecorded(spec, journal.value.tx)
                && At(tree, spec.boundary) == Some(Dir(MODE_0555, ROOT)) && spec.boundary in journal.value.tx.resources
      ensures Explained(o, f, ContentsReady(spec, orig))
    {
      BoundaryFacts(spec);
      ContentFacts(spec);
      assert Entered(spec.boundary);
      ManifestIsReady(spec, orig);
      o := InstallSnapshot(f, orig);
    }

    /** The files and the snapshot. */
    method InstallContents(f: Faults, ghost orig: Tree) returns (o: Outcome)
      requires InTransaction(orig) && Layout(spec) && Laid() && Founded(spec, orig, tree)
      modifies `tree, `journal, `backups
      ensures InTransaction(orig) && JournalGrows() && RuntimeKept()
      ensures o.Finished? ==>
                && Installed(spec, orig, tree) && AllRecorded(spec, journal.value.tx)
                && spec.boundary in journal.value.tx.resources
      ensures Explained(o, f, ContentsReady(spec, orig))
    {
      ghost var founded := tree;
      o := FillFiles(f, orig);
      if !o.Finished? {
        return;
      }
      ghost var filled := tree;
      o := FillBoundary(f, orig);
      if o.Finished? {
        ComposeInstalled(spec, orig, founded, filled, tree, journal.value.tx, backups);
      }
    }

    /** The file-system half of `apply`, in its order. */
    method InstallTree(f: Faults, ghost orig: Tree) returns (o: Outcome)
      requires InTransaction(orig) && Layout(spec)
      modifies `tree, `journal, `backups
      ensures InTransaction(orig) && JournalGrows()
      ensures o.Finished? ==>
                && Installed(spec, orig, tree) && StopReady(spec, orig) && journal.value.tx.runtime
                && spec.boundary in journal.value.tx.resources && AllRecorded(spec, journal.value.tx)
                && !Obstructed(spec, orig, old(tree), old(journal).value.tx)
      ensures Explained(o, f, Installable(spec, orig) && !Obstructed(spec, orig, old(tree), old(journal).value.tx))
      ensures Obstructed(spec, orig, tree, journal.value.tx) ==> f.window || Obstructed(spec, orig, old(tree), old(journal).value.tx)
    {
      InstallableParts(spec, orig);
      o := InstallFoundation(f, orig);
      if o.Finished? {
        o := InstallContents(f, orig);
      }
    }

    /** Between attempts nothing is open and `orig` is the tree itself; otherwise the journal accounts
        for everything since `orig`. */
    ghost predicate Consistent(orig: Tree)
      reads this
    {
      && Layout(spec) && Roster() && ControllerNeverStarted()
      && (journal.Some? && !journal.value.initialized ==> journal.value.status == Open)
      && if NothingOpen()
         then tree == orig && Closed(orig) && BackupsMatch(orig, backups)
         else InTransaction(orig) && BaselineKept() && (IsCommitted() ==> WasInstalled(orig))
    }

    ghost predicate NothingOpen()
      reads this
    {
      journal.None? || !journal.value.initialized || journal.value.status == RolledBack
    }

    predicate IsCommitted()
      reads this
    {
      journal.Some? && journal.value.status == Committed
    }

    /** What a committed installation leaves even while it is being rolled back. */
    ghost predicate WasInstalled(orig: Tree)
      reads this
    {
      && journal.Some? && At(tree, spec.stop) == Some(StopNode(spec, orig))
      && spec.boundary in journal.value.tx.resources && journal.value.tx.runtime
    }

    /** A runtime stands that an attempt does not accept. */
    ghost predicate HasObstacle(orig: Tree)
      reads this
    {
      !NothingOpen() && Obstructed(spec, orig, tree, journal.value.tx)
    }

    /** An undisturbed attempt finishes. */
    ghost predicate Ready(orig: Tree)
      requires OneManifest(spec)
      reads this
    {
      Installable(spec, orig) && !HasObstacle(orig) && !StateOf(controller).active
    }

    /** `attest` with the path units required. */
    ghost predicate AttestedNow()
      requires OneManifest(spec)
      reads this
    {
      && journal.Some? && journal.value.reloaded && Attested(spec, tree)
      && StateOf(controller) == UnitState(false, false)
      && (forall u :: u in pathUnits ==> StateOf(u) == UnitState(true, true))
    }

    /** The unit states `b` are the baseline: captured by the open transaction, or still in effect. */
    ghost predicate BaselineIs(b: map<Unit, UnitState>)
      reads this
    {
      forall u :: u in managedUnits ==>
        && u in b
        && if NothingOpen() then StateOf(u) == b[u]
           else u in journal.value.baseline && journal.value.baseline[u] == b[u]
    }

    /** `_open_transaction`, called with the controller stopped. */
    method OpenTransaction(f: Faults, ghost orig: Tree, ghost b: map<Unit, UnitState>) returns (o: Outcome)
      requires Consistent(orig) && BaselineIs(b) && !StateOf(controller).active
      modifies `journal
      ensures Consistent(orig) && BaselineIs(b)
      ensures o.Finished? ==> !NothingOpen()
      ensures Explained(o, f, true)
      ensures HasObstacle(orig) <==> old(HasObstacle(orig))
      ensures IsCommitted() <==> old(IsCommitted())
      ensures !old(NothingOpen()) ==> journal == old(journal) && o.Finished?
    {
      if journal.None? || journal.value.status == RolledBack {
        journal := Some(Journal(Open, false, EMPTY_TX, map[], false, false, false));
        o := Interrupt(f);
        if !o.Finished? {
          return;
        }
      }
      if !journal.value.initialized {
        ContentFacts(spec);
        FreshIsRecoverable(spec, orig, backups);
        var baseline := map u | u in managedUnits :: StateOf(u);
        journal := Some(Journal(Open, true, EMPTY_TX, baseline, false, false, false));
        o := Interrupt(f);
        return;
      }
      o := Finished;
    }

    /** The file-system half of `rollback`, with what it restores. */
    method UndoTree(f: Faults, ghost orig: Tree) returns (done: bool, ghost base: Tree)
      requires InTransaction(orig) && Layout(spec) && AddedStopped()
      modifies `tree, `rollbacks
      ensures InTransaction(base) && base == Target(spec, orig, journal.value.tx) && rollbacks == old(rollbacks) + [journal.value.tx]
      ensures At(tree, spec.stop) == old(At(tree, spec.stop)) && (!done ==> f.raise || f.kill)
      ensures done ==>
                && Settled(spec, base, tree)
                && (Restored(spec, base, tree) <==> !Orphaned(spec, orig, old(tree), journal.value.tx))
    {
      done := RollbackTree(f, orig);
      base := Target(spec, orig, journal.value.tx);
      rollbacks := rollbacks + [journal.value.tx];
      if done {
        DirectoryFacts(spec);
        RestoredUnlessOrphaned(spec, base, tree);
      }
    }

    /** `rollback`.  A failing unit transition, an exception or a kill can cut it short, and then it can be run
        again.  A complete one restores everything, except for the boundary's mode if it was never journalled
        and for a runtime that the journal does not know of. */
    method Rollback(f: Faults, ghost orig: Tree) returns (complete: bool, ghost base: Tree)
      requires InTransaction(orig) && Layout(spec) && Roster() && BaselineKept() && ControllerNeverStarted()
      modifies `tree, `journal, `units, `log, `rollbacks
      ensures InTransaction(base) && BaselineKept() && ControllerNeverStarted()
      ensures journal.value == old(journal).value.(status := journal.value.status)
      ensures At(tree, spec.stop) == old(At(tree, spec.stop))
      ensures var tx := old(journal).value.tx;
              || (!complete && base == orig && rollbacks == old(rollbacks))
              || (base == Target(spec, orig, tx) && rollbacks == old(rollbacks) + [tx])
      ensures !complete ==> journal == old(journal) && (f.raise || f.kill)
      ensures complete ==>
                && journal.value.status == RolledBack && Settled(spec, base, tree)
                && (Restored(spec, base, tree) <==> !Orphaned(spec, orig, old(tree), old(journal).value.tx))
                && (forall u :: u in managedUnits ==> UnitIsBack(u, journal.value.baseline))
    {
      base := orig;
      if journal.value.systemEffects {
        complete := StopAdded(f);
        if !complete {
          return;
        }
      }
      complete, base := UndoTree(f, orig);
      if complete {
        complete := FinishRollback(f, base);
      }
    }

    /** The units, and the ROLLED_BACK write. */
    method FinishRollback(f: Faults, ghost base: Tree) returns (complete: bool)
      requires InTransaction(base) && Roster() && BaselineKept() && ControllerNeverStarted()
      modifies `journal, `units, `log
      ensures InTransaction(base) && BaselineKept() && ControllerNeverStarted()
      ensures !complete ==> journal == old(journal) && f.raise
      ensures complete ==>
                && journal.value == old(journal).value.(status := RolledBack)
                && (forall u :: u in managedUnits ==> UnitIsBack(u, journal.value.baseline))
    {
      complete := true;
      if journal.value.systemEffects {
        complete := RestoreUnits(f);
      }
      if complete {
        journal := Some(journal.value.(status := RolledBack));
      }
    }

    /** `_attest_installed_tree`; what it checks beyond the tree can only raise. */
    method AttestInstalledTree(f: Faults) returns (o: Outcome)
      requires OneManifest(spec)
      ensures o.Finished? ==> Attested(spec, tree)
      ensures Explained(o, f, Attested(spec, tree))
    {
      assert Look(0);
      if !AttestedFacts(spec, tree) {
        return Raised;
      }
      o := Interrupt(f);
    }

    /** `attest`. */
    method Attest(f: Faults) returns (o: Outcome)
      requires OneManifest(spec) && journal.Some?
      ensures o.Finished? ==> AttestedNow()
      ensures Explained(o, f, AttestedNow())
    {
      o := AttestInstalledTree(f);
      if !o.Finished? {
        return;
      }
      if !journal.value.reloaded || StateOf(controller) != UnitState(false, false) {
        return Raised;
      }
      for i := 0 to |pathUnits|
        invariant forall j :: 0 <= j < i ==> StateOf(pathUnits[j]) == UnitState(true, true)
      {
        if StateOf(pathUnits[i]) != UnitState(true, true) {
          return Raised;
        }
      }
    }

    /** What the installation of the tree needs. */
    ghost predicate TreeReady(orig: Tree)
      requires OneManifest(spec)
      reads this
    {
      journal.Some? && Installable(spec, orig) && !Obstructed(spec, orig, tree, journal.value.tx)
    }

    /** Install the tree and attest it. */
    method InstallAndAttest(f: Faults, ghost orig: Tree) returns (o: Outcome)
      requires InTransaction(orig) && Layout(spec) && Quiet() && journal.value.quiesced
      modifies `tree, `journal, `backups
      ensures InTransaction(orig) && JournalGrows()
      ensures o.Finished? ==> Attested(spec, tree) && WasInstalled(orig) && old(TreeReady(orig))
      ensures Explained(o, f, old(TreeReady(orig)))
      ensures Obstructed(spec, orig, tree, journal.value.tx) ==> f.window || Obstructed(spec, orig, old(tree), old(journal).value.tx)
    {
      o := InstallTree(f, orig);
      if !o.Finished? {
        return;
      }
      ContentFacts(spec);
      MarkerIsInstalled(spec, orig, tree);
      InstalledIsAttested(spec, orig, tree, journal.value.tx, backups);
      o := AttestInstalledTree(f);
      if o.Finished? {
        InstalledNeedsInstallable(spec, orig, tree, journal.value.tx, backups);
      }
    }

    /** Quiesce the units, then install and attest. */
    method Prepare(f: Faults, ghost orig: Tree) returns (o: Outcome)
      requires InTransaction(orig) && Layout(spec) && BaselineKept() && ControllerNeverStarted()
      modifies `tree, `journal, `backups, `units, `log
      ensures InTransaction(orig) && BaselineKept() && ControllerNeverStarted() && ControllerStays()
      ensures journal.value == old(journal).value.(tx := journal.value.tx, systemEffects := true, quiesced := journal.value.quiesced)
      ensures o.Finished? ==> Attested(spec, tree) && WasInstalled(orig) && journal.value.quiesced && old(TreeReady(orig))
      ensures Explained(o, f, old(TreeReady(orig)))
      ensures Obstructed(spec, orig, tree, journal.value.tx) ==> f.window || Obstructed(spec, orig, old(tree), old(journal).value.tx)
      ensures BackupsGrow(old(backups), backups) && RecordStays()
      ensures o.Finished? || tree != old(tree) ==> Quiet()
    {
      o := Quiesce(f);
      if o.Finished? {
        o := InstallAndAttest(f, orig);
      }
    }

    /** Reload, enable the paths and attest again. */
    method Activate(f: Faults) returns (o: Outcome)
      requires OneManifest(spec) && Roster() && BaselineKept() && ControllerNeverStarted()
      requires journal.value.systemEffects && journal.value.quiesced && Attested(spec, tree)
      modifies `journal, `units, `log
      ensures BaselineKept() && ControllerNeverStarted() && ControllerStays()
      ensures journal.value == old(journal).value.(reloaded := journal.value.reloaded)
      ensures o.Finished? ==> AttestedNow()
      ensures Explained(o, f, !old(StateOf(controller).active))
    {
      o := ReloadAndLeaveControllerStopped(f);
      if !o.Finished? {
        return;
      }
      o := AttestInstalledTree(f);
      if !o.Finished? {
        return;
      }
      o := EnablePaths(f);
      if o.Finished? {
        o := Attest(f);
      }
    }

    /** The `try` block of `apply`, from the first unit to the COMMITTED write and the record after it. */
    method Install(f: Faults, ghost orig: Tree) returns (o: Outcome)
      requires InTransaction(orig) && Layout(spec) && Roster() && BaselineKept() && ControllerNeverStarted()
      requires !IsCommitted() && !StateOf(controller).active
      modifies `tree, `journal, `backups, `units, `log
      ensures InTransaction(orig) && BaselineKept() && ControllerNeverStarted() && ControllerStays()
      ensures o.Finished? ==> IsCommitted()
      ensures IsCommitted() ==> AttestedNow() && WasInstalled(orig) && old(TreeReady(orig))
      ensures !IsCommitted() ==> journal.value.status == old(journal).value.status
      ensures Explained(o, f, old(TreeReady(orig)))
      ensures Obstructed(spec, orig, tree, journal.value.tx) ==> f.window || Obstructed(spec, orig, old(tree), old(journal).value.tx)
      ensures journal.value.initialized && journal.value.baseline == old(journal).value.baseline
      ensures BackupsGrow(old(backups), backups) && RecordStays()
    {
      o := Prepare(f, orig);
      if !o.Finished? {
        return;
      }
      o := Activate(f);
      if !o.Finished? {
        return;
      }
      journal := Some(journal.value.(status := Committed));
      o := Interrupt(f);
    }

    /** The record of the runtime is never dropped while the transaction is open. */
    twostate predicate RecordStays()
      reads this
    {
      old(journal).Some? && journal.Some? && (old(journal).value.tx.runtime ==> journal.value.tx.runtime)
    }

    /** What an unfinished rollback in the exception handler leaves. */
    twostate predicate CutShort(orig: Tree, base: Tree, b: map<Unit, UnitState>)
      reads this
    {
      && BaselineIs(b) && journal.Some?
      && ((base == orig && rollbacks == old(rollbacks))
          || (base == Target(spec, orig, journal.value.tx) && rollbacks == old(rollbacks) + [journal.value.tx]))
    }

    /** What a complete one leaves. */
    twostate predicate RolledBackFrom(orig: Tree, base: Tree, b: map<Unit, UnitState>)
      reads this
    {
      && base == tree && journal.Some? && journal.value.status == RolledBack
      && Settled(spec, Target(spec, orig, journal.value.tx), tree) && rollbacks == old(rollbacks) + [journal.value.tx]
      && (journal.value.tx.runtime ==> Restored(spec, Target(spec, orig, journal.value.tx), tree))
      && (forall u :: u in managedUnits ==> UnitIsBack(u, b))
    }

    /** `apply` with confirmation.  `base` is the tree that the journal accounts for afterwards.  Short of a
        fault, an attempt finishes exactly when it is `Ready`; on a committed journal it only attests, and
        changes nothing. */
    method Apply(f: Faults, ghost orig: Tree, ghost b: map<Unit, UnitState>)
      returns (o: Outcome, rolledBack: bool, ghost base: Tree)
      requires Consistent(orig) && BaselineIs(b)
      modifies `tree, `journal, `backups, `units, `log, `rollbacks
      ensures Consistent(base) && BackupsGrow(old(backups), backups)
      ensures o.Finished? ==> IsCommitted() && Installed(spec, orig, tree) && AttestedNow()
      ensures !old(IsCommitted()) ==>
                && (o.Finished? || (o.Killed? && IsCommitted()) ==> old(Ready(orig)))
                && Explained(o, f, old(Ready(orig)))
      ensures old(IsCommitted()) ==>
                && tree == old(tree) && journal == old(journal) && units == old(units) && !rolledBack && base == orig
                && (o.Finished? ==> old(AttestedNow())) && Explained(o, f, old(AttestedNow()))
      ensures !o.Raised? ==> base == orig && rollbacks == old(rollbacks) && BaselineIs(b) && !rolledBack
      ensures o.Killed? ==> !StateOf(controller).active && !old(StateOf(controller).active)
      ensures o.Killed? && HasObstacle(orig) && !IsCommitted() ==> f.window || old(HasObstacle(orig))
      ensures o.Killed? && IsCommitted() && !old(IsCommitted()) ==> AttestedNow()
      ensures o.Raised? && !rolledBack ==> CutShort(orig, base, b) || (base == orig && rollbacks == old(rollbacks) && BaselineIs(b))
      ensures o.Raised? && !f.raise && !f.kill && !old(IsCommitted()) && !old(StateOf(controller).active) ==> rolledBack
      ensures rolledBack ==> o.Raised? && RolledBackFrom(orig, base, b)
      ensures !old(NothingOpen()) ==> RecordStays()
    {
      rolledBack, base := false, orig;
      if StateOf(controller).active {
        o := Raised;
        return;
      }
      if IsCommitted() {
        o := Reattest(f, orig);
      } else {
        o, rolledBack, base := Begin(f, orig, b);
      }
    }

    /** Open the transaction, unless a committed one is open, and go on. */
    method Begin(f: Faults, ghost orig: Tree, ghost b: map<Unit, UnitState>)
      returns (o: Outcome, rolledBack: bool, ghost base: Tree)
      requires Consistent(orig) && BaselineIs(b) && !IsCommitted() && !StateOf(controller).active
      modifies `tree, `journal, `backups, `units, `log, `rollbacks
      ensures Consistent(base) && BackupsGrow(old(backups), backups)
      ensures o.Finished? ==> IsCommitted() && Installed(spec, orig, tree)
      ensures !o.Raised? && IsCommitted() ==> AttestedNow() && old(Ready(orig))
      ensures Explained(o, f, old(Ready(orig)))
      ensures !o.Raised? ==>
                base == orig && rollbacks == old(rollbacks) && BaselineIs(b) && !rolledBack && !StateOf(controller).active
      ensures !o.Raised? && HasObstacle(orig) ==> f.window || old(HasObstacle(orig))
      ensures o.Raised? && !rolledBack ==>
                (f.raise || f.kill) && (CutShort(orig, base, b) || (base == orig && rollbacks == old(rollbacks) && BaselineIs(b)))
      ensures rolledBack ==> o.Raised? && RolledBackFrom(orig, base, b)
      ensures !old(NothingOpen()) ==> RecordStays()
    {
      rolledBack, base := false, orig;
      o := OpenTransaction(f, orig, b);
      if o.Finished? {
        o, rolledBack, base := Proceed(f, orig, b);
      }
    }

    /** A committed installation is only attested again. */
    method Reattest(f: Faults, ghost orig: Tree) returns (o: Outcome)
      requires Consistent(orig) && IsCommitted() && !NothingOpen()
      ensures o.Finished? ==> AttestedNow() && Installed(spec, orig, tree)
      ensures Explained(o, f, AttestedNow())
    {
      o := Attest(f);
      if o.Finished? {
        AttestedIsInstalled(spec, orig, tree, journal.value.tx, backups);
      }
    }

    /** The `try` statement of `apply`. */
    method Proceed(f: Faults, ghost orig: Tree, ghost b: map<Unit, UnitState>)
      returns (o: Outcome, rolledBack: bool, ghost base: Tree)
      requires Consistent(orig) && BaselineIs(b) && !NothingOpen() && !IsCommitted() && !StateOf(controller).active
      modifies `tree, `journal, `backups, `units, `log, `rollbacks
      ensures Consistent(base) && BackupsGrow(old(backups), backups)
      ensures o.Finished? ==> IsCommitted() && Installed(spec, orig, tree)
      ensures !o.Raised? && IsCommitted() ==> AttestedNow() && old(Ready(orig))
      ensures Explained(o, f, old(Ready(orig)))
      ensures !o.Raised? ==>
                base == orig && rollbacks == old(rollbacks) && BaselineIs(b) && !rolledBack && !StateOf(controller).active
      ensures !o.Raised? && HasObstacle(orig) ==> f.window || old(HasObstacle(orig))
      ensures o.Raised? && !rolledBack ==> CutShort(orig, base, b) && (f.raise || f.kill)
      ensures rolledBack ==> o.Raised? && RolledBackFrom(orig, base, b)
      ensures RecordStays()
    {
      rolledBack, base := false, orig;
      o := Install(f, orig);
      if o.Raised? {
        rolledBack, base := Unwind(f, orig, b);
      } else if o.Finished? {
        AttestedIsInstalled(spec, orig, tree, journal.value.tx, backups);
      }
    }

    /** The exception handler of `apply`. */
    method Unwind(f: Faults, ghost orig: Tree, ghost b: map<Unit, UnitState>) returns (rolledBack: bool, ghost base: Tree)
      requires Consistent(orig) && BaselineIs(b) && !NothingOpen()
      modifies `tree, `journal, `units, `log, `rollbacks
      ensures Consistent(base)
      ensures !rolledBack ==> CutShort(orig, base, b) && (f.raise || f.kill)
      ensures rolledBack ==> RolledBackFrom(orig, base, b)
      ensures RecordStays()
    {
      BoundaryFacts(spec);
      rolledBack, base := Rollback(f, orig);
      if rolledBack {
        RolledBackIsFresh(spec, base, tree, journal.value.tx, backups);
        base := tree;
      }
    }

    /** Any number of attempts, each disturbed in any way: killed, raised with its rollback complete or itself
        cut short, or finished.  Whenever no transaction is open the tree is exactly the first one, up to the
        boundary's mode if some rollback had not journalled it and what rollback leaves behind; a finished
        installation stands on it; and the backups hold its bytes. */
    method Attempts(n: nat) returns (o: Outcome, ghost base: Tree)
      requires Consistent(tree) && NothingOpen()
      modifies `tree, `journal, `backups, `units, `log, `rollbacks
      ensures ControllerNeverStarted() && Consistent(base) && old(rollbacks) <= rollbacks
      ensures Unchanged(spec, old(tree), base, AllJournalled(spec, rollbacks[|old(rollbacks)|..]))
      ensures NothingOpen() ==>
                && Unchanged(spec, old(tree), tree, AllJournalled(spec, rollbacks[|old(rollbacks)|..]))
                && forall u :: u in managedUnits ==> UnitKept(old(tree), u, old(StateOf(u)), StateOf(u))
      ensures o.Finished? ==> Installed(spec, base, tree)
      ensures forall k :: k in backups && !Leftover(spec, old(tree), base, k) ==>
                k in old(tree) && old(tree)[k].File? && backups[k] == old(tree)[k].content
    {
      ghost var first, n0 := tree, |rollbacks|;
      base, o := tree, Raised;
      ghost var b := map u | u in managedUnits :: StateOf(u);
      var i := 0;
      while i < n && !o.Finished?
        invariant Consistent(base) && BaselineIs(b) && old(rollbacks) <= rollbacks
        invariant Unchanged(spec, first, base, AllJournalled(spec, rollbacks[n0..]))
        invariant UnitsKept(first, old(units), b)
        invariant o.Finished? ==> Installed(spec, base, tree)
      {
        o, base, b := OneAttempt(first, old(units), n0, base, b);
        i := i + 1;
      }
      BackupsStayOriginal(first, base, AllJournalled(spec, rollbacks[n0..]));
    }

    /** The unit states `b` differ from the first ones only as attempts may make them. */
    ghost predicate UnitsKept(first: Tree, before: map<Unit, UnitState>, b: map<Unit, UnitState>) {
      forall u :: u in managedUnits ==>
        u in b && UnitKept(first, u, if u in before then before[u] else UnitState(false, false), b[u])
    }

    /** One more attempt, disturbed in any way. */
    method OneAttempt(ghost first: Tree, ghost before: map<Unit, UnitState>, ghost n0: nat, ghost base0: Tree, ghost b0: map<Unit, UnitState>)
      returns (o: Outcome, ghost base: Tree, ghost b: map<Unit, UnitState>)
      requires Consistent(base0) && BaselineIs(b0) && n0 <= |rollbacks|
      requires Unchanged(spec, first, base0, AllJournalled(spec, rollbacks[n0..])) && UnitsKept(first, before, b0)
      modifies `tree, `journal, `backups, `units, `log, `rollbacks
      ensures Consistent(base) && BaselineIs(b) && old(rollbacks) <= rollbacks
      ensures Unchanged(spec, first, base, AllJournalled(spec, rollbacks[n0..])) && UnitsKept(first, before, b)
      ensures o.Finished? ==> Installed(spec, base, tree)
    {
      ghost var history := rollbacks[n0..];
      var f: Faults := *;
      var rolledBack;
      o, rolledBack, base := Apply(f, base0, b0);
      b := b0;
      if |rollbacks| > n0 + |history| {
        OneMoreRollback(spec, rollbacks, n0, history);
        AttemptsCompose(spec, first, base0, base, journal.value.tx, AllJournalled(spec, history));
      }
      if rolledBack {
        b := map u | u in managedUnits :: StateOf(u);
        UnitsStayKept(first, AllJournalled(spec, rollbacks[n0..]), before, b0, b);
      }
    }

    lemma UnitsStayKept(first: Tree, exact: bool, before: map<Unit, UnitState>, b0: map<Unit, UnitState>, b: map<Unit, UnitState>)
      requires Unchanged(spec, first, tree, exact) && UnitsKept(first, before, b0)
      requires forall u :: u in managedUnits ==> UnitIsBack(u, b0) && u in b && b[u] == StateOf(u)
      ensures UnitsKept(first, before, b)
    {
      forall u | u in managedUnits
        ensures UnitKept(first, u, if u in before then before[u] else UnitState(false, false), b[u])
      {
        if HoldsFile(first, UnitPath(u)) {
          UnitFileWasThere(spec, first, tree, exact, UnitPath(u));
        }
      }
    }

    lemma BackupsStayOriginal(first: Tree, base: Tree, exact: bool)
      requires Consistent(base) && Unchanged(spec, first, base, exact)
      ensures forall k :: k in backups && !Leftover(spec, first, base, k) ==>
                k in first && first[k].File? && backups[k] == first[k].content
    {
      assert BackupsMatch(base, backups);
      forall k | k in backups && !Leftover(spec, first, base, k)
        ensures k in first && first[k].File? && backups[k] == first[k].content
      {
        BackupsAreOriginal(spec, first, base, backups, exact, k);
      }
    }

    /** What a killed attempt leaves to the next one. */
    ghost predicate CanGoOn(first: Tree, b: map<Unit, UnitState>, stopped: bool)
      reads this
    {
      && Consistent(first) && BaselineIs(b) && StateOf(controller).active == !stopped
      && if IsCommitted() then AttestedNow() && Installable(spec, first) && stopped else !HasObstacle(first)
    }

    /** Killed any number of times right after a journal write, the COMMITTED one included, and then left alone,
        an installation finishes exactly when the first tree is installable and the controller was stopped.  It
        ends in the one installed tree, and its journal still holds the originals and the unit states of before
        the first attempt. */
    method Rerun(kills: nat) returns (o: Outcome)
      requires Consistent(tree) && NothingOpen()
      modifies `tree, `journal, `backups, `units, `log, `rollbacks
      ensures ControllerNeverStarted() && !o.Killed?
      ensures o.Finished? <==> Installable(spec, old(tree)) && !old(StateOf(controller).active)
      ensures o.Finished? ==>
                && Installed(spec, old(tree), tree) && IsCommitted() && Consistent(old(tree))
                && BaselineIs(map v | v in managedUnits :: old(StateOf(v)))
    {
      ghost var first, stopped := tree, !StateOf(controller).active;
      ghost var b := map v | v in managedUnits :: StateOf(v);
      o := Killed;
      var i := 0;
      while i <= kills && o.Killed?
        invariant i <= kills + 1 && (i == kills + 1 ==> !o.Killed?) && Layout(spec)
        invariant o.Killed? ==> CanGoOn(first, b, stopped)
        invariant ControllerNeverStarted()
        invariant !o.Killed? ==> (o.Finished? <==> Installable(spec, first) && stopped)
        invariant o.Finished? ==> Installed(spec, first, tree) && IsCommitted() && Consistent(first) && BaselineIs(b)
      {
        o := NextAttempt(if i < kills then KILLS else CALM, first, b, stopped);
        i := i + 1;
      }
    }

    method NextAttempt(f: Faults, ghost first: Tree, ghost b: map<Unit, UnitState>, ghost stopped: bool) returns (o: Outcome)
      requires CanGoOn(first, b, stopped) && !f.raise && !f.window
      modifies `tree, `journal, `backups, `units, `log, `rollbacks
      ensures Layout(spec) && ControllerNeverStarted() && (o.Killed? ==> f.kill && CanGoOn(first, b, stopped))
      ensures !o.Killed? ==> (o.Finished? <==> Installable(spec, first) && stopped)
      ensures o.Finished? ==> Installed(spec, first, tree) && IsCommitted() && Consistent(first) && BaselineIs(b)
    {
      var rolledBack; ghost var base;
      o, rolledBack, base := Apply(f, first, b);
    }

    /** A rollback after such an installation restores the first tree and the first unit states. */
    method RerunThenRollback(kills: nat) returns (o: Outcome)
      requires Consistent(tree) && NothingOpen()
      modifies `tree, `journal, `backups, `units, `log, `rollbacks
      ensures ControllerNeverStarted()
      ensures o.Finished? <==> Installable(spec, old(tree)) && !old(StateOf(controller).active)
      ensures o.Finished? ==>
                && Restored(spec, old(tree), tree) && journal.Some? && journal.value.status == RolledBack
                && (forall u :: u in managedUnits ==> UnitIsBack(u, map v | v in managedUnits :: old(StateOf(v))))
    {
      ghost var first := tree;
      o := Rerun(kills);
      if o.Finished? {
        var complete; ghost var base;
        complete, base := Rollback(CALM, first);
      }
    }

    /** An exception before the directories are journalled, as at the first account, costs an existing boundary
        its mode: the rollback that follows is complete and leaves it at 0700. */
    method RaisesBeforeDirectories()
      requires Consistent(tree) && NothingOpen() && !StateOf(controller).active
      requires IsDir(tree, spec.boundary) && tree[spec.boundary].mode != MODE_0700
      modifies `tree, `journal, `units, `log, `rollbacks
      ensures journal.Some? && journal.value.status == RolledBack
      ensures tree == old(tree)[spec.boundary := Chmod(old(tree)[spec.boundary], MODE_0700)] && tree != old(tree)
    {
      ghost var first := tree;
      journal := Some(Journal(Open, true, EMPTY_TX, map u | u in managedUnits :: StateOf(u), false, false, false));
      ContentFacts(spec);
      FreshIsRecoverable(spec, first, backups);
      var o := Quiesce(CALM);
      assert Consider(spec.boundary);
      var complete; ghost var base;
      complete, base := Rollback(CALM, first);
      DirectoryFacts(spec);
      assert !HoldsStop(spec, base, spec.runtimeRoot);
      NothingElse(spec, first, tree, journal.value.tx, backups);
    }

    /** An exception between the rename of the runtime and its journal write costs more: the complete rollback
        leaves the runtime, and no later attempt can finish. */
    method RaisesInWindow()
      requires Consistent(tree) && NothingOpen() && !StateOf(controller).active
      requires spec.runtimeRoot !in tree && IsDir(tree, Parent(spec.runtimeRoot))
      modifies `tree, `journal, `units, `log, `rollbacks
      ensures journal.Some? && journal.value.status == RolledBack
      ensures At(tree, spec.runtimeRoot) == Some(Subtree(spec.runtime, true))
      ensures !Restored(spec, old(tree), tree) && !Installable(spec, tree)
    {
      ghost var first := tree;
      journal := Some(Journal(Open, true, EMPTY_TX, map u | u in managedUnits :: StateOf(u), false, false, false));
      ContentFacts(spec);
      BoundaryFacts(spec);
      FreshIsRecoverable(spec, first, backups);
      RuntimeKeeps(spec, first, tree, EMPTY_TX, backups);
      tree := tree[spec.runtimeRoot := Subtree(spec.runtime, true)];
      var complete; ghost var base;
      complete, base := Rollback(CALM, first);
      DirectoryFacts(spec);
      RestoredUnlessOrphaned(spec, base, tree);
      assert !HoldsStop(spec, first, spec.runtimeRoot) && Look(0);
    }

    /** A rollback that was cut short while it removed the runtime: the tree is installable, the controller is
        stopped and the journal knows the runtime, which is no longer whole. */
    method CutInRemoval(ghost b: map<Unit, UnitState>)
      requires Consistent(tree) && NothingOpen() && BaselineIs(b) && !StateOf(controller).active && Installable(spec, tree)
      modifies `tree, `journal, `backups
      ensures Consistent(old(tree)) && BaselineIs(b) && !NothingOpen() && !IsCommitted()
      ensures journal.value.tx.runtime && HasObstacle(old(tree))
    {
      ghost var first := tree;
      var o := OpenTransaction(CALM, first, b);
      InstallableParts(spec, first);
      o := InstallFoundation(CALM, first);
      RemovalStarts(first);
    }

    method RemovalStarts(ghost first: Tree)
      requires InTransaction(first) && Layout(spec) && journal.value.tx.runtime && spec.runtimeRoot in tree && spec.runtimeRoot !in first
      modifies `tree
      ensures InTransaction(first) && Obstructed(spec, first, tree, journal.value.tx)
    {
      BoundaryFacts(spec);
      BeginRemoval(first);
    }

    /** Then an undisturbed attempt raises, and its own rollback finishes the removal. */
    method AttemptAfterCut() returns (o: Outcome, rolledBack: bool)
      requires Consistent(tree) && NothingOpen() && !StateOf(controller).active && Installable(spec, tree)
      modifies `tree, `journal, `backups, `units, `log, `rollbacks
      ensures o.Raised? && rolledBack
      ensures journal.Some? && journal.value.status == RolledBack
      ensures Restored(spec, Target(spec, old(tree), journal.value.tx), tree) && spec.runtimeRoot !in tree
    {
      ghost var first, base := tree, tree;
      ghost var b := map u | u in managedUnits :: StateOf(u);
      CutInRemoval(b);
      o, rolledBack, base := Apply(CALM, first, b);
      DirectoryFacts(spec);
      BoundaryFacts(spec);
      assert !HoldsStop(spec, Target(spec, first, journal.value.tx), spec.runtimeRoot);
    }
  }

  lemma {:induction false} OneMoreRollback(spec: Spec, rollbacks: seq<Tx>, n: nat, history: seq<Tx>)
    requires n < |rollbacks| && history == rollbacks[n..|rollbacks| - 1]
    ensures AllJournalled(spec, rollbacks[n..]) <==>
              AllJournalled(spec, history) && spec.boundary in rollbacks[|rollbacks| - 1].resources
  {
    assert rollbacks[n..] == history + [rollbacks[|rollbacks| - 1]];
  }

  lemma UnitFileWasThere(spec: Spec, first: Tree, tree: Tree, exact: bool, p: Path)
    requires Unchanged(spec, first, tree, exact) && HoldsFile(first, p)
    ensures HoldsFile(tree, p)
  {
    assert !Leftover(spec, first, tree, p);
  }

  function Effect(s: UnitState, t: Transition): UnitState {
    match t
    case Enable(_) => s.(enabled := true)
    case Disable(_) => s.(enabled := false)
    case Start(_) => s.(active := true)
    case Restart(_) => s.(active := true)
    case Stop(_) => s.(active := false)
  }

  /** The smallest installation onto an empty root finishes, however often it is killed. */
  method InstallSmallest(root: Node, kills: nat) returns (o: Outcome)
    requires root.Dir?
    ensures o.Finished?
  {
    SmallestIsInstallable(root);
    var installer := new Installer(Smallest(), [], [], "controller", "authority", map[[] := root], map[]);
    o := installer.Rerun(kills);
  }
}
