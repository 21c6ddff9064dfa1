/** What a finished installation of deployment/privileged_installer.py looks like, and on which trees one can
    be finished at all. */
module InstalledTree {
  import opened Prelude
  import opened InstallJournal

  const STOP_MARKER: Bytes := [115, 116, 111, 112, 112, 101, 100, 32, 112, 101, 110, 100, 105, 110, 103, 32, 105, 110, 100, 101, 112, 101, 110, 100, 101, 110, 116, 32, 97, 99, 116, 105, 118, 97, 116, 105, 111, 110, 10]

  // ----- What a finished installation looks like --------------------------------------------------

  predicate DirectoriesInstalled(spec: Spec, tree: Tree, n: nat) {
    forall i :: 0 <= i < n && i < |spec.directories| ==>
      At(tree, spec.directories[i].target) == Some(Dir(spec.directories[i].mode, spec.directories[i].owner))
  }

  predicate FilesInstalled(spec: Spec, tree: Tree, n: nat) {
    forall i :: 0 <= i < n && i < |spec.files| && spec.files[i].role == Ordinary ==>
      At(tree, spec.files[i].target) == Some(File(spec.files[i].content, spec.files[i].mode, spec.files[i].owner))
  }

  predicate ManifestInstalled(spec: Spec, tree: Tree)
    requires OneManifest(spec)
  {
    var pin := spec.files[spec.manifestIndex];
    At(tree, pin.target) == Some(File(pin.content, MODE_0444, ROOT))
  }

  function StopNode(spec: Spec, orig: Tree): Node {
    if spec.stop in orig then orig[spec.stop] else File(STOP_MARKER, MODE_0600, spec.stopOwner)
  }

  function EntryNode(e: Entry): Node {
    if e.directory then Dir(e.mode, ROOT) else File(e.content, e.mode, ROOT)
  }

  predicate SnapshotInstalled(spec: Spec, tree: Tree) {
    forall i :: 0 <= i < |spec.snapshot| ==>
      At(tree, EntryPath(spec, spec.snapshot[i])) == Some(EntryNode(spec.snapshot[i]))
  }

  /** The installed tree, told from the specification and the tree that the first attempt found. */
  ghost predicate Installed(spec: Spec, orig: Tree, tree: Tree)
    requires OneManifest(spec)
  {
    forall n {:trigger Look(n)} :: Look(n) ==> InstalledFacts(spec, orig, tree)
  }

  ghost predicate InstalledFacts(spec: Spec, orig: Tree, tree: Tree)
    requires OneManifest(spec)
  {
    && DirectoriesInstalled(spec, tree, |spec.directories|)
    && FilesInstalled(spec, tree, |spec.files|)
    && ManifestInstalled(spec, tree)
    && At(tree, spec.stop) == Some(StopNode(spec, orig))
    && At(tree, spec.runtimeRoot) == Some(Subtree(spec.runtime, true))
    && SnapshotInstalled(spec, tree)
    && (forall p :: !Managed(spec, p) && p != spec.runtimeRoot && !IsEntry(spec, p) ==> At(tree, p) == At(orig, p))
  }

  /** What that says of every pin, in full. */
  lemma InstalledMeans(spec: Spec, orig: Tree, tree: Tree)
    requires OneManifest(spec) && Installed(spec, orig, tree)
    ensures forall d :: d in spec.directories ==> d.target in tree && tree[d.target] == Dir(d.mode, d.owner)
    ensures forall f :: f in spec.files && f.role == Ordinary ==> f.target in tree && tree[f.target] == File(f.content, f.mode, f.owner)
    ensures forall f :: f in spec.files && f.role == SnapshotManifest ==>
              f.target in tree && tree[f.target] == File(f.content, 292, Owner(0, 0))
    ensures forall e :: e in spec.snapshot ==>
              && spec.boundary + e.path in tree
              && tree[spec.boundary + e.path] == if e.directory then Dir(e.mode, Owner(0, 0)) else File(e.content, e.mode, Owner(0, 0))
    ensures spec.stop in tree
    ensures tree[spec.stop] == if spec.stop in orig then orig[spec.stop] else File(STOP_MARKER, 384, spec.stopOwner)
  {
    assert Look(0);
    forall e | e in spec.snapshot
      ensures spec.boundary + e.path in tree
      ensures tree[spec.boundary + e.path] == if e.directory then Dir(e.mode, Owner(0, 0)) else File(e.content, e.mode, Owner(0, 0))
    {
      var i :| 0 <= i < |spec.snapshot| && spec.snapshot[i] == e;
      assert At(tree, EntryPath(spec, spec.snapshot[i])) == Some(EntryNode(e));
    }
  }

  /** There is only one such tree, so however often an installation is killed and rerun, it ends alike. */
  lemma InstalledIsUnique(spec: Spec, orig: Tree, a: Tree, b: Tree)
    requires OneManifest(spec) && Installed(spec, orig, a) && Installed(spec, orig, b)
    ensures a == b
  {
    assert Look(0);
    forall p ensures At(a, p) == At(b, p) {
      if IsDirectory(spec, p) {
        var i :| 0 <= i < |spec.directories| && spec.directories[i].target == p;
      } else if IsFile(spec, p) {
        var i :| 0 <= i < |spec.files| && spec.files[i].target == p && spec.files[i].role != RuntimeExecutable;
      } else if IsEntry(spec, p) {
        var i :| 0 <= i < |spec.snapshot| && EntryPath(spec, spec.snapshot[i]) == p;
        assert At(a, EntryPath(spec, spec.snapshot[i])) == Some(EntryNode(spec.snapshot[i]));
      }
    }
    forall p ensures p in a <==> p in b {
      assert At(a, p) == At(b, p);
    }
    forall p | p in a ensures a[p] == b[p] {
      assert At(a, p) == At(b, p);
    }
  }

  ghost predicate EntriesKnown(spec: Spec, tx: Tx) {
    forall r {:trigger Consider(r)} :: Consider(r) && r in tx.snapshot ==> r != [] && IsEntry(spec, spec.boundary + r)
  }

  lemma {:induction false} PreparedGrow(spec: Spec, a: Tx, b: Tx, n: nat)
    requires TxGrows(a, b) && DirectoriesPrepared(spec, a, n)
    ensures DirectoriesPrepared(spec, b, n)
  {
    forall i | 0 <= i < n && i < |spec.directories| ensures spec.directories[i].target in b.resources {
      assert Entered(spec.directories[i].target);
    }
  }

  lemma {:induction false} SnapshotGrows(spec: Spec, a: Tx, b: Tx, p: Path)
    requires TxGrows(a, b) && InSnapshot(spec, a, p)
    ensures InSnapshot(spec, b, p)
  {
    assert Entered(p[|spec.boundary|..]);
  }

  lemma {:induction false} AnotherEntry(spec: Spec, tx: Tx, i: nat)
    requires EntriesKnown(spec, tx) && i < |spec.snapshot| && spec.snapshot[i].path != []
    ensures EntriesKnown(spec, tx.(snapshot := tx.snapshot + [spec.snapshot[i].path]))
  {
    assert EntryPath(spec, spec.snapshot[i]) == spec.boundary + spec.snapshot[i].path;
  }

  ghost predicate AllRecorded(spec: Spec, tx: Tx) {
    forall i :: 0 <= i < |spec.snapshot| ==> InSnapshot(spec, tx, EntryPath(spec, spec.snapshot[i]))
  }

  ghost predicate DirectoriesPrepared(spec: Spec, tx: Tx, n: nat) {
    forall i :: 0 <= i < n && i < |spec.directories| ==> spec.directories[i].target in tx.resources
  }

  // ----- Facts about the layout --------------------------------------------------------------------

  lemma BoundaryFacts(spec: Spec)
    requires Layout(spec)
    ensures IsDirectory(spec, spec.boundary) && spec.boundary != spec.stop && spec.boundary != spec.runtimeRoot && spec.boundary != []
    ensures !Managed(spec, spec.runtimeRoot) && !IsFile(spec, spec.boundary)
  {
    assert Look(0);
    var i :| 0 <= i < |spec.directories| && spec.directories[i] == DirectoryPin(spec.boundary, MODE_0555, ROOT);
    assert spec.directories[i].target == spec.boundary;
  }

  lemma DirectoryFacts(spec: Spec)
    requires Layout(spec)
    ensures DistinctDirectories(spec) && DistinctStop(spec) && ParentsFirst(spec)
  {
    assert Look(0);
  }

  lemma ContentFacts(spec: Spec)
    requires Layout(spec)
    ensures DistinctFiles(spec) && SnapshotLayout(spec) && BoundaryIsShallow(spec)
  {
    assert Look(0);
  }

  lemma EntriesAreNotTargets(spec: Spec)
    requires SnapshotLayout(spec)
    ensures forall p :: IsEntry(spec, p) ==> !Managed(spec, p) && Under(p, spec.boundary)
  {
    forall p | IsEntry(spec, p) ensures !Managed(spec, p) && Under(p, spec.boundary) {
      var i :| 0 <= i < |spec.snapshot| && EntryPath(spec, spec.snapshot[i]) == p;
      assert p[..|spec.boundary|] == spec.boundary;
    }
  }

  lemma {:induction false} NotAnEntry(spec: Spec, p: Path)
    requires SnapshotLayout(spec) && (Managed(spec, p) || !Under(p, spec.boundary))
    ensures !IsEntry(spec, p)
  {
    EntriesAreNotTargets(spec);
  }

  /** Closing the boundary disturbs no entry. */
  lemma {:induction false} SnapshotStays(spec: Spec, before: Tree, node: Node)
    requires SnapshotInstalled(spec, before) && !IsEntry(spec, spec.boundary)
    ensures SnapshotInstalled(spec, before[spec.boundary := node])
  {
  }

  lemma EntryPathsDiffer(spec: Spec, i: nat, j: nat)
    requires SnapshotLayout(spec) && i < |spec.snapshot| && j < |spec.snapshot| && i != j
    ensures EntryPath(spec, spec.snapshot[i]) != EntryPath(spec, spec.snapshot[j])
  {
    var a, b := EntryPath(spec, spec.snapshot[i]), EntryPath(spec, spec.snapshot[j]);
    assert a[|spec.boundary|..] == spec.snapshot[i].path && b[|spec.boundary|..] == spec.snapshot[j].path;
  }

  lemma KnownEntry(spec: Spec, tx: Tx, p: Path)
    requires EntriesKnown(spec, tx)
    ensures InSnapshot(spec, tx, p) ==> IsEntry(spec, p)
  {
    if InSnapshot(spec, tx, p) {
      assert Consider(p[|spec.boundary|..]);
      assert p == spec.boundary + p[|spec.boundary|..];
    }
  }

  /** The directories, the marker and the runtime are in place. */
  ghost predicate Founded(spec: Spec, orig: Tree, tree: Tree) {
    && DirectoriesInstalled(spec, tree, |spec.directories|)
    && At(tree, spec.stop) == Some(StopNode(spec, orig))
    && At(tree, spec.runtimeRoot) == Some(Subtree(spec.runtime, true))
  }

  lemma ComposeInstalled(spec: Spec, orig: Tree, founded: Tree, filled: Tree, tree: Tree, tx: Tx, backups: map<Path, Bytes>)
    requires Layout(spec) && Recoverable(spec, orig, tree, tx, backups) && EntriesKnown(spec, tx)
    requires Founded(spec, orig, founded)
    requires forall p :: !IsFile(spec, p) ==> At(filled, p) == At(founded, p)
    requires FilesInstalled(spec, filled, |spec.files|)
    requires forall p :: p != spec.boundary && p != ManifestTarget(spec) && !IsEntry(spec, p) ==> At(tree, p) == At(filled, p)
    requires SnapshotInstalled(spec, tree) && ManifestInstalled(spec, tree) && At(tree, spec.boundary) == Some(Dir(MODE_0555, ROOT))
    ensures Installed(spec, orig, tree)
  {
    assert Look(0);
    EntriesAreNotTargets(spec);
    BoundaryFacts(spec);
    forall i | 0 <= i < |spec.directories|
      ensures At(tree, spec.directories[i].target) == Some(Dir(spec.directories[i].mode, spec.directories[i].owner))
    {
      var d := spec.directories[i].target;
      assert IsDirectory(spec, d) && !IsFile(spec, d);
      if d == spec.boundary {
        assert spec.directories[i] == DirectoryPin(spec.boundary, MODE_0555, ROOT);
      } else {
        assert At(tree, d) == At(filled, d) == At(founded, d);
      }
    }
    forall i | 0 <= i < |spec.files| && spec.files[i].role == Ordinary
      ensures At(tree, spec.files[i].target) == At(filled, spec.files[i].target)
    {
      assert IsFile(spec, spec.files[i].target);
    }
    assert !IsFile(spec, spec.stop) && !IsFile(spec, spec.runtimeRoot);
    assert At(tree, spec.stop) == At(filled, spec.stop);
    assert At(tree, spec.runtimeRoot) == At(filled, spec.runtimeRoot);
    forall p | !Managed(spec, p) && p != spec.runtimeRoot && !IsEntry(spec, p) ensures At(tree, p) == At(orig, p) {
      assert Consider(p);
      KnownEntry(spec, tx, p);
    }
  }

  // ----- Trees on which an installation can be finished ------------------------------------------------

  /** The directory of the target is managed, or it was there before. */
  ghost predicate HasPlace(spec: Spec, orig: Tree, k: Path) {
    IsDirectory(spec, Parent(k)) || IsDir(orig, Parent(k))
  }

  /** An existing target has the right type. */
  predicate WellTyped(spec: Spec, orig: Tree, k: Path) {
    k in orig ==> orig[k].Dir? == IsDirectory(spec, k) && !orig[k].Subtree?
  }

  /** A STOP marker that was there before is the controller's own. */
  predicate StopReady(spec: Spec, orig: Tree) {
    spec.stop in orig ==> orig[spec.stop].File? && orig[spec.stop].mode == MODE_0600 && orig[spec.stop].owner == spec.stopOwner
  }

  /** The boundary held at most an old manifest. */
  ghost predicate BoundaryReady(spec: Spec, orig: Tree)
    requires OneManifest(spec)
  {
    forall p {:trigger Consider(p)} :: Consider(p) && p in orig && Under(p, spec.boundary) ==> p == ManifestTarget(spec)
  }

  /** Every snapshot entry lies in the boundary itself or in a listed directory. */
  ghost predicate SnapshotReady(spec: Spec) {
    forall i {:trigger EntryReady(spec, i)} :: 0 <= i < |spec.snapshot| ==> EntryReady(spec, i)
  }

  predicate EntryReady(spec: Spec, i: nat)
    requires i < |spec.snapshot|
  {
    |spec.snapshot[i].path| == 1 || exists j :: 0 <= j < |spec.snapshot| && Encloses(spec.snapshot[j], spec.snapshot[i])
  }

  /** The place is there and what stands in it has the right type. */
  ghost predicate TargetReady(spec: Spec, orig: Tree, k: Path) {
    HasPlace(spec, orig, k) && WellTyped(spec, orig, k)
  }

  ghost predicate DirectoriesReady(spec: Spec, orig: Tree) {
    forall i {:trigger TargetReady(spec, orig, spec.directories[i].target)} ::
      0 <= i < |spec.directories| ==> TargetReady(spec, orig, spec.directories[i].target)
  }

  ghost predicate FilesReady(spec: Spec, orig: Tree) {
    forall i {:trigger TargetReady(spec, orig, spec.files[i].target)} ::
      0 <= i < |spec.files| && spec.files[i].role != RuntimeExecutable ==> TargetReady(spec, orig, spec.files[i].target)
  }

  /** The directories, the marker and the runtime can be placed. */
  ghost predicate FoundationReady(spec: Spec, orig: Tree) {
    DirectoriesReady(spec, orig) && MarkerReady(spec, orig) && DistributionReady(spec, orig)
  }

  ghost predicate MarkerReady(spec: Spec, orig: Tree) {
    HasPlace(spec, orig, spec.stop) && StopReady(spec, orig)
  }

  ghost predicate DistributionReady(spec: Spec, orig: Tree) {
    HasPlace(spec, orig, spec.runtimeRoot) && spec.runtimeRoot !in orig
  }

  /** The files and the snapshot can. */
  ghost predicate ContentsReady(spec: Spec, orig: Tree)
    requires OneManifest(spec)
  {
    FilesReady(spec, orig) && BoundaryReady(spec, orig) && SnapshotReady(spec)
  }

  /** An undisturbed installation onto this tree finishes; see `Installer.Apply`. */
  ghost predicate Installable(spec: Spec, orig: Tree)
    requires OneManifest(spec)
  {
    forall n {:trigger Look(n)} :: Look(n) ==> FoundationReady(spec, orig) && ContentsReady(spec, orig)
  }

  /** Nothing but the manifest and the snapshot lies below the boundary. */
  predicate BoundaryExact(spec: Spec, tree: Tree)
    requires OneManifest(spec)
  {
    forall p :: p in tree && Under(p, spec.boundary) ==> p == ManifestTarget(spec) || IsEntry(spec, p)
  }

  lemma {:induction false} InstallableParts(spec: Spec, orig: Tree)
    requires OneManifest(spec)
    ensures Installable(spec, orig) <==> FoundationReady(spec, orig) && ContentsReady(spec, orig)
  {
    assert Look(0);
  }

  lemma {:induction false} MarkerIsInstalled(spec: Spec, orig: Tree, tree: Tree)
    requires OneManifest(spec) && Installed(spec, orig, tree)
    ensures At(tree, spec.stop) == Some(StopNode(spec, orig))
  {
    assert Look(0);
  }

  /** `_attest_installed_tree`, on the tree. */
  ghost predicate Attested(spec: Spec, tree: Tree)
    requires OneManifest(spec)
  {
    forall n {:trigger Look(n)} :: Look(n) ==> AttestedFacts(spec, tree)
  }

  predicate AttestedFacts(spec: Spec, tree: Tree)
    requires OneManifest(spec)
  {
    && DirectoriesInstalled(spec, tree, |spec.directories|)
    && FilesInstalled(spec, tree, |spec.files|)
    && ManifestInstalled(spec, tree)
    && At(tree, spec.runtimeRoot) == Some(Subtree(spec.runtime, true))
    && SnapshotInstalled(spec, tree) && BoundaryExact(spec, tree)
  }

  /** With the marker in place, an attested tree is the installed one. */
  lemma {:induction false} AttestedIsInstalled(spec: Spec, orig: Tree, tree: Tree, tx: Tx, backups: map<Path, Bytes>)
    requires OneManifest(spec) && Recoverable(spec, orig, tree, tx, backups) && EntriesKnown(spec, tx)
    requires Attested(spec, tree) && At(tree, spec.stop) == Some(StopNode(spec, orig))
    ensures Installed(spec, orig, tree)
  {
    assert Look(0);
    forall p | !Managed(spec, p) && p != spec.runtimeRoot && !IsEntry(spec, p) ensures At(tree, p) == At(orig, p) {
      assert Consider(p);
      KnownEntry(spec, tx, p);
    }
    assert InstalledFacts(spec, orig, tree);
  }

  /** An installed tree passes attestation if the boundary was ready. */
  lemma {:induction false} InstalledIsAttested(spec: Spec, orig: Tree, tree: Tree, tx: Tx, backups: map<Path, Bytes>)
    requires OneManifest(spec) && BoundaryIsShallow(spec) && Recoverable(spec, orig, tree, tx, backups) && EntriesKnown(spec, tx)
    requires Installed(spec, orig, tree)
    ensures Installable(spec, orig) ==> Attested(spec, tree)
  {
    assert Look(0);
    BoundaryIsKnown(spec, orig, tree, tx, backups);
  }

  /** The place of a target is there throughout. */
  lemma {:induction false} PlaceStands(spec: Spec, orig: Tree, tree: Tree, tx: Tx, backups: map<Path, Bytes>, k: Path)
    requires Recoverable(spec, orig, tree, tx, backups) && HasPlace(spec, orig, k)
    requires forall i :: 0 <= i < |spec.directories| && spec.directories[i].target == Parent(k) ==> IsDir(tree, Parent(k))
    ensures IsDir(tree, Parent(k))
  {
    assert Consider(Parent(k));
  }

  lemma {:induction false} InstalledDirectory(spec: Spec, tree: Tree, tx: Tx, d: Path)
    requires IsDirectory(spec, d)
    requires DirectoriesInstalled(spec, tree, |spec.directories|) && DirectoriesPrepared(spec, tx, |spec.directories|)
    ensures IsDir(tree, d) && d in tx.resources
  {
    var i :| 0 <= i < |spec.directories| && spec.directories[i].target == d;
    assert At(tree, spec.directories[i].target) == Some(Dir(spec.directories[i].mode, spec.directories[i].owner));
    assert spec.directories[i].target in tx.resources;
  }

  /** Managed directories come in an order in which each finds its parent. */
  lemma {:induction false} DirectoryFits(spec: Spec, orig: Tree, tree: Tree, tx: Tx, backups: map<Path, Bytes>, i: nat)
    requires Recoverable(spec, orig, tree, tx, backups) && DistinctDirectories(spec) && ParentsFirst(spec)
    requires i < |spec.directories| && DirectoriesInstalled(spec, tree, i)
    ensures var k := spec.directories[i].target;
            DirectoriesReady(spec, orig) ==> WellTyped(spec, orig, k) && IsDir(tree, Parent(k))
  {
    var k := spec.directories[i].target;
    if DirectoriesReady(spec, orig) {
      assert TargetReady(spec, orig, spec.directories[i].target);
      PlaceStands(spec, orig, tree, tx, backups, k);
    }
  }

  /** Once the directories are installed, every other place stands. */
  lemma {:induction false} PlaceFits(spec: Spec, orig: Tree, tree: Tree, tx: Tx, backups: map<Path, Bytes>, k: Path)
    requires Recoverable(spec, orig, tree, tx, backups) && DirectoriesInstalled(spec, tree, |spec.directories|)
    ensures HasPlace(spec, orig, k) ==> IsDir(tree, Parent(k))
  {
    if HasPlace(spec, orig, k) {
      PlaceStands(spec, orig, tree, tx, backups, k);
    }
  }

  lemma {:induction false} FileFits(spec: Spec, orig: Tree, tree: Tree, tx: Tx, backups: map<Path, Bytes>, i: nat)
    requires Recoverable(spec, orig, tree, tx, backups) && DirectoriesInstalled(spec, tree, |spec.directories|)
    requires i < |spec.files| && spec.files[i].role != RuntimeExecutable
    ensures var k := spec.files[i].target;
            FilesReady(spec, orig) ==> WellTyped(spec, orig, k) && IsDir(tree, Parent(k))
  {
    if FilesReady(spec, orig) {
      assert TargetReady(spec, orig, spec.files[i].target);
      PlaceFits(spec, orig, tree, tx, backups, spec.files[i].target);
    }
  }

  /** Writing anything else disturbs no directory. */
  lemma {:induction false} DirectoriesStay(spec: Spec, before: Tree, after: Tree, k: Path)
    requires DirectoriesInstalled(spec, before, |spec.directories|)
    requires forall i :: 0 <= i < |spec.directories| ==> spec.directories[i].target != k
    requires forall p :: p != k ==> At(after, p) == At(before, p)
    ensures DirectoriesInstalled(spec, after, |spec.directories|)
  {
  }

  lemma {:induction false} ManifestIsReady(spec: Spec, orig: Tree)
    requires OneManifest(spec)
    ensures FilesReady(spec, orig) ==> WellTyped(spec, orig, ManifestTarget(spec))
  {
    assert spec.files[spec.manifestIndex].role == SnapshotManifest;
    assert FilesReady(spec, orig) ==> TargetReady(spec, orig, spec.files[spec.manifestIndex].target);
  }

  /** An unjournalled target is still as it was. */
  lemma {:induction false} UntouchedTarget(spec: Spec, orig: Tree, tree: Tree, tx: Tx, backups: map<Path, Bytes>, k: Path)
    requires Recoverable(spec, orig, tree, tx, backups) && Managed(spec, k) && k != spec.runtimeRoot && k !in tx.resources
    ensures At(tree, k) == At(orig, k)
  {
    assert Consider(k);
  }

  /** Below the boundary there is only what the journal knows. */
  lemma {:induction false} NoStranger(spec: Spec, orig: Tree, tree: Tree, tx: Tx, backups: map<Path, Bytes>, q: Path)
    requires Recoverable(spec, orig, tree, tx, backups) && OneManifest(spec) && BoundaryIsShallow(spec) && BoundaryReady(spec, orig)
    requires q in tree && Under(q, spec.boundary)
    ensures q == ManifestTarget(spec) || InSnapshot(spec, tx, q)
  {
    assert Consider(q);
  }

  lemma {:induction false} BoundaryIsKnown(spec: Spec, orig: Tree, tree: Tree, tx: Tx, backups: map<Path, Bytes>)
    requires Recoverable(spec, orig, tree, tx, backups) && EntriesKnown(spec, tx) && OneManifest(spec) && BoundaryIsShallow(spec)
    ensures BoundaryReady(spec, orig) ==> BoundaryExact(spec, tree)
  {
    if BoundaryReady(spec, orig) {
      forall p | p in tree && Under(p, spec.boundary) ensures p == ManifestTarget(spec) || IsEntry(spec, p) {
        NoStranger(spec, orig, tree, tx, backups, p);
        KnownEntry(spec, tx, p);
      }
    }
  }

  /** The path of an unrecorded entry is free. */
  lemma {:induction false} EntryIsFree(spec: Spec, orig: Tree, tree: Tree, tx: Tx, backups: map<Path, Bytes>, i: nat)
    requires Recoverable(spec, orig, tree, tx, backups) && SnapshotLayout(spec) && OneManifest(spec) && i < |spec.snapshot|
    requires spec.snapshot[i].path !in tx.snapshot && EntryPath(spec, spec.snapshot[i]) in tree
    ensures !BoundaryReady(spec, orig)
  {
    var e := spec.snapshot[i];
    var p := EntryPath(spec, e);
    assert p[..|spec.boundary|] == spec.boundary && p[|spec.boundary|..] == e.path;
    assert !Managed(spec, p) && Consider(p);
    assert IsFile(spec, ManifestTarget(spec));
  }

  lemma {:induction false} EntryIsRecorded(spec: Spec, tx: Tx, e: Entry)
    requires e.path != []
    ensures InSnapshot(spec, tx, EntryPath(spec, e)) <==> e.path in tx.snapshot
  {
    var p := EntryPath(spec, e);
    assert p[..|spec.boundary|] == spec.boundary && p[|spec.boundary|..] == e.path;
  }

  lemma {:induction false} ChmodKeepsEntry(spec: Spec, p: Path, node: Node, mode: nat)
    requires IsEntryNode(spec, p, node)
    ensures IsEntryNode(spec, p, Chmod(node, mode))
  {
    var i :| 0 <= i < |spec.snapshot| && EntryPath(spec, spec.snapshot[i]) == p && Matches(spec.snapshot[i], node);
    assert Matches(spec.snapshot[i], Chmod(node, mode));
  }

  /** A rollback of an empty journal changes nothing but the boundary's mode. */
  lemma {:induction false} NothingElse(spec: Spec, orig: Tree, tree: Tree, tx: Tx, backups: map<Path, Bytes>)
    requires tx == EMPTY_TX && At(tree, spec.runtimeRoot) == At(Target(spec, orig, tx), spec.runtimeRoot)
    requires Recoverable(spec, Target(spec, orig, tx), tree, tx, backups)
    ensures tree == Target(spec, orig, tx)
  {
    var target := Target(spec, orig, tx);
    forall p ensures At(tree, p) == At(target, p) {
      assert Consider(p);
    }
    forall p ensures p in tree <==> p in target {
      assert At(tree, p) == At(target, p);
    }
    forall p | p in tree ensures tree[p] == target[p] {
      assert At(tree, p) == At(target, p);
    }
  }

  /** A recorded entry that is there is the right one. */
  lemma {:induction false} RecordedEntryMatches(spec: Spec, orig: Tree, tree: Tree, tx: Tx, backups: map<Path, Bytes>, i: nat)
    requires Recoverable(spec, orig, tree, tx, backups) && SnapshotLayout(spec) && i < |spec.snapshot|
    requires var p := EntryPath(spec, spec.snapshot[i]); p in tree && InSnapshot(spec, tx, p)
    ensures Matches(spec.snapshot[i], tree[EntryPath(spec, spec.snapshot[i])])
  {
    var p := EntryPath(spec, spec.snapshot[i]);
    assert Consider(p);
    var j :| 0 <= j < |spec.snapshot| && EntryPath(spec, spec.snapshot[j]) == p && Matches(spec.snapshot[j], tree[p]);
    if i != j {
      EntryPathsDiffer(spec, i, j);
    }
  }

  // ----- And only on those --------------------------------------------------------------------------------

  lemma {:induction false} PlaceWasThere(spec: Spec, orig: Tree, tree: Tree, tx: Tx, backups: map<Path, Bytes>, k: Path)
    requires Recoverable(spec, orig, tree, tx, backups) && OneManifest(spec) && BoundaryIsShallow(spec)
    requires k in tree && k != [] && (Managed(spec, k) || k == spec.runtimeRoot)
    ensures HasPlace(spec, orig, k)
  {
    var p := Parent(k);
    assert Consider(k) && Consider(p);
    assert |p| >= |spec.boundary| ==> k[..|spec.boundary|] == p[..|spec.boundary|];
  }

  lemma {:induction false} EntryHasDirectory(spec: Spec, orig: Tree, tree: Tree, i: nat)
    requires OneManifest(spec) && Installed(spec, orig, tree) && BoundaryExact(spec, tree) && SnapshotLayout(spec)
    requires Closed(tree) && i < |spec.snapshot| && |spec.snapshot[i].path| != 1
    ensures exists j :: 0 <= j < |spec.snapshot| && Encloses(spec.snapshot[j], spec.snapshot[i])
  {
    assert Look(0);
    var e := spec.snapshot[i];
    var p := EntryPath(spec, e);
    assert At(tree, p) == Some(EntryNode(e));
    assert Consider(p);
    var d := Parent(p);
    assert d == spec.boundary + Parent(e.path) && Under(d, spec.boundary);
    var j :| 0 <= j < |spec.snapshot| && EntryPath(spec, spec.snapshot[j]) == d;
    assert At(tree, EntryPath(spec, spec.snapshot[j])) == Some(EntryNode(spec.snapshot[j]));
    assert d[|spec.boundary|..] == spec.snapshot[j].path == Parent(e.path);
    assert Encloses(spec.snapshot[j], e);
  }

  /** Every finished installation started from such a tree. */
  lemma {:induction false} InstalledNeedsInstallable(spec: Spec, orig: Tree, tree: Tree, tx: Tx, backups: map<Path, Bytes>)
    requires Layout(spec) && Recoverable(spec, orig, tree, tx, backups)
    requires Installed(spec, orig, tree) && Attested(spec, tree) && StopReady(spec, orig) && tx.runtime
    requires AllRecorded(spec, tx)
    ensures Installable(spec, orig)
  {
    assert Look(0);
    TargetsWereReady(spec, orig, tree, tx, backups);
    PlaceWasThere(spec, orig, tree, tx, backups, spec.stop);
    PlaceWasThere(spec, orig, tree, tx, backups, spec.runtimeRoot);
    forall i | 0 <= i < |spec.snapshot| ensures EntryPath(spec, spec.snapshot[i]) !in orig {
      assert Consider(EntryPath(spec, spec.snapshot[i]));
    }
    forall p | Consider(p) && p in orig && Under(p, spec.boundary) ensures p == ManifestTarget(spec) {
      assert p in tree;
    }
    forall i | 0 <= i < |spec.snapshot| ensures EntryReady(spec, i) {
      if |spec.snapshot[i].path| != 1 {
        EntryHasDirectory(spec, orig, tree, i);
      }
    }
  }

  lemma {:induction false} TargetsWereReady(spec: Spec, orig: Tree, tree: Tree, tx: Tx, backups: map<Path, Bytes>)
    requires Layout(spec) && Recoverable(spec, orig, tree, tx, backups) && Installed(spec, orig, tree)
    ensures DirectoriesReady(spec, orig) && FilesReady(spec, orig)
  {
    assert Look(0);
    forall i | 0 <= i < |spec.directories|
      ensures TargetReady(spec, orig, spec.directories[i].target)
    {
      var k := spec.directories[i].target;
      assert IsDirectory(spec, k) && Consider(k);
      PlaceWasThere(spec, orig, tree, tx, backups, k);
    }
    forall i | 0 <= i < |spec.files| && spec.files[i].role != RuntimeExecutable
      ensures TargetReady(spec, orig, spec.files[i].target)
    {
      var k := spec.files[i].target;
      assert IsFile(spec, k) && Consider(k);
      PlaceWasThere(spec, orig, tree, tx, backups, k);
    }
  }

  // ----- The smallest installation --------------------------------------------------------------------------

  function Smallest(): Spec {
    Spec([DirectoryPin(["b"], MODE_0555, ROOT)],
         [FilePin(SnapshotManifest, ["b", "m"], [], MODE_0444, ROOT)],
         0, ["s"], ROOT, ["b"], ["r"], [], [])
  }

  /** The layout can be met, and an empty root is ready for it. */
  lemma {:induction false} SmallestIsInstallable(root: Node)
    requires root.Dir?
    ensures Layout(Smallest()) && Closed(map[[] := root]) && Installable(Smallest(), map[[] := root])
  {
    var spec, orig: Tree := Smallest(), map[[] := root];
    var b: Path, m: Path := ["b"], ["b", "m"];
    assert Parent(m) == b && Parent(b) == [] && Parent(["s"]) == [] && Parent(["r"]) == [];
    assert spec.directories[0].target == b && IsDirectory(spec, b);
    assert spec.files[0].target == m;
    forall p: Path | Under(p, b) && Managed(spec, p) ensures p == m {
      assert !IsDirectory(spec, p);
    }
    assert LayoutFacts(spec);
  }
}
