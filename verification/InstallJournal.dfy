/** What the journal of deployment/privileged_installer.py makes recoverable.

    The file system is a map from absolute paths to nodes.  `Recoverable` says that the journal and the
    backups account for every difference from the tree that the first attempt found; each install step
    and each rollback step keeps it. */
module InstallJournal {
  import opened Prelude

  type Path = seq<string>

  datatype Owner = Owner(uid: nat, gid: nat)

  /** `Subtree` is the extracted runtime distribution, which appears as a whole; while its removal is under way
      it is not intact. */
  datatype Node =
    | File(content: Bytes, mode: nat, owner: Owner)
    | Dir(mode: nat, owner: Owner)
    | Subtree(manifest: Bytes, intact: bool)

  type Tree = map<Path, Node>

  datatype DirectoryPin = DirectoryPin(target: Path, mode: nat, owner: Owner)

  datatype Role = Ordinary | RuntimeExecutable | SnapshotManifest

  datatype FilePin = FilePin(role: Role, target: Path, content: Bytes, mode: nat, owner: Owner)

  /** A snapshot entry; the path is relative to the repository boundary. */
  datatype Entry = Entry(path: Path, directory: bool, content: Bytes, mode: nat)

  datatype Spec = Spec(
    directories: seq<DirectoryPin>,
    files: seq<FilePin>,
    manifestIndex: nat,
    stop: Path,
    stopOwner: Owner,
    boundary: Path,
    runtimeRoot: Path,
    runtime: Bytes,
    snapshot: seq<Entry>)

  const ROOT: Owner := Owner(0, 0)
  const MODE_0700: nat := 448
  const MODE_0600: nat := 384
  const MODE_0555: nat := 365
  const MODE_0444: nat := 292

  // ----- Paths -------------------------------------------------------------------------------------

  predicate Under(p: Path, ancestor: Path) {
    |p| > |ancestor| && p[..|ancestor|] == ancestor
  }

  /** The root is its own parent. */
  function Parent(p: Path): Path {
    if p == [] then [] else p[..|p| - 1]
  }

  function At(t: Tree, p: Path): Option<Node> {
    if p in t then Some(t[p]) else None
  }

  predicate IsDir(t: Tree, p: Path) {
    p in t && t[p].Dir?
  }

  predicate HasChild(t: Tree, p: Path) {
    exists q {:trigger Parent(q)} :: q in t && q != [] && Parent(q) == p
  }

  /** Names a path that a proof looks at: the quantifiers below are used at such paths only. */
  ghost predicate Consider(p: Path) {
    true
  }

  /** Every node lies in a directory. */
  ghost predicate Closed(t: Tree) {
    forall q {:trigger Consider(q)} :: Consider(q) && q in t && q != [] ==> IsDir(t, Parent(q))
  }

  // ----- The installation layout ------------------------------------------------------------------

  predicate IsDirectory(spec: Spec, p: Path) {
    exists i :: 0 <= i < |spec.directories| && spec.directories[i].target == p
  }

  /** The runtime executable is pinned but installed with the runtime distribution. */
  predicate IsFile(spec: Spec, p: Path) {
    exists i :: 0 <= i < |spec.files| && spec.files[i].target == p && spec.files[i].role != RuntimeExecutable
  }

  predicate Managed(spec: Spec, p: Path) {
    IsDirectory(spec, p) || IsFile(spec, p) || p == spec.stop
  }

  /** The facts that the fixed target tables and the manifest validators guarantee: distinct targets,
      managed parents before their children, sorted snapshot entries, and nothing but the snapshot and its
      manifest below the boundary. */
  ghost predicate Layout(spec: Spec) {
    OneManifest(spec) && forall n {:trigger Look(n)} :: Look(n) ==> LayoutFacts(spec)
  }

  /** Names a step at which a proof needs the layout in full: elsewhere it is only passed on. */
  ghost predicate Look(n: nat) {
    true
  }

  ghost predicate LayoutFacts(spec: Spec)
    requires OneManifest(spec)
  {
    && DistinctDirectories(spec) && DistinctFiles(spec) && DistinctStop(spec)
    && ParentsFirst(spec)
    && BoundaryIsShallow(spec)
    && DirectoryPin(spec.boundary, MODE_0555, ROOT) in spec.directories
    && SnapshotLayout(spec)
  }

  predicate DistinctDirectories(spec: Spec) {
    && (forall i, j :: 0 <= i < j < |spec.directories| ==> spec.directories[i].target != spec.directories[j].target)
    && (forall i :: 0 <= i < |spec.directories| ==>
          && spec.directories[i].target != []
          && spec.directories[i].target != spec.stop && spec.directories[i].target != spec.runtimeRoot)
  }

  predicate DistinctFiles(spec: Spec) {
    && (forall i, j :: 0 <= i < j < |spec.files| ==> spec.files[i].target != spec.files[j].target)
    && (forall i :: 0 <= i < |spec.files| ==>
          && !IsDirectory(spec, spec.files[i].target) && spec.files[i].target != []
          && spec.files[i].target != spec.stop && spec.files[i].target != spec.runtimeRoot)
  }

  predicate DistinctStop(spec: Spec) {
    && spec.stop != [] && spec.stop != spec.runtimeRoot && spec.runtimeRoot != [] && !IsDirectory(spec, spec.stop)
    && !Under(spec.stop, spec.runtimeRoot)
  }

  predicate OneManifest(spec: Spec) {
    && spec.manifestIndex < |spec.files|
    && forall i :: 0 <= i < |spec.files| ==> (spec.files[i].role == SnapshotManifest <==> i == spec.manifestIndex)
  }

  function ManifestTarget(spec: Spec): Path
    requires OneManifest(spec)
  {
    spec.files[spec.manifestIndex].target
  }

  /** The snapshot manifest lies in the boundary, and nothing else that is managed does. */
  ghost predicate BoundaryIsShallow(spec: Spec)
    requires OneManifest(spec)
  {
    && (forall p {:trigger Consider(p)} :: Consider(p) && Managed(spec, p) && Under(p, spec.boundary) ==> p == ManifestTarget(spec))
    && ManifestTarget(spec) != [] && Parent(ManifestTarget(spec)) == spec.boundary
    && !Under(spec.runtimeRoot, spec.boundary)
  }

  predicate ParentsFirst(spec: Spec) {
    forall i, j | 0 <= i < |spec.directories| && 0 <= j < |spec.directories| && spec.directories[j].target != [] ::
      Parent(spec.directories[j].target) == spec.directories[i].target ==> i < j
  }

  predicate SnapshotLayout(spec: Spec) {
    && (forall i :: 0 <= i < |spec.snapshot| ==>
          spec.snapshot[i].path != [] && !Managed(spec, spec.boundary + spec.snapshot[i].path))
    && (forall i, j :: 0 <= i < j < |spec.snapshot| ==> spec.snapshot[i].path != spec.snapshot[j].path)
    && (forall i, j :: 0 <= i < |spec.snapshot| && 0 <= j < |spec.snapshot| && Encloses(spec.snapshot[j], spec.snapshot[i]) ==> j < i)
  }

  /** The first entry is the directory of the second. */
  predicate Encloses(d: Entry, e: Entry) {
    d.directory && |d.path| + 1 == |e.path| && e.path[..|d.path|] == d.path
  }

  function EntryPath(spec: Spec, e: Entry): Path {
    spec.boundary + e.path
  }

  predicate IsEntry(spec: Spec, p: Path) {
    exists i :: 0 <= i < |spec.snapshot| && EntryPath(spec, spec.snapshot[i]) == p
  }

  /** The node is what the entry asks for, up to mode and owner. */
  predicate Matches(e: Entry, node: Node) {
    if e.directory then node.Dir? else node.File? && node.content == e.content
  }

  predicate IsEntryNode(spec: Spec, p: Path, node: Node) {
    exists i :: 0 <= i < |spec.snapshot| && EntryPath(spec, spec.snapshot[i]) == p && Matches(spec.snapshot[i], node)
  }

  // ----- The journal -------------------------------------------------------------------------------

  /** One `resources` record. */
  datatype Saved = Saved(existed: bool, directory: bool, mode: nat, owner: Owner)

  /** The part of state.json that concerns the file system: saved resources, recorded snapshot entries
      in insertion order, and whether the runtime entries are recorded. */
  datatype Tx = Tx(resources: map<Path, Saved>, snapshot: seq<Path>, runtime: bool)

  const EMPTY_TX: Tx := Tx(map[], [], false)

  function SaveOf(t: Tree, p: Path, directory: bool): Saved {
    if p !in t then Saved(false, directory, 0, ROOT)
    else match t[p]
         case File(_, mode, owner) => Saved(true, directory, mode, owner)
         case Dir(mode, owner) => Saved(true, directory, mode, owner)
         case Subtree(_, _) => Saved(true, directory, 0, ROOT)
  }

  predicate InSnapshot(spec: Spec, tx: Tx, p: Path) {
    Under(p, spec.boundary) && p[|spec.boundary|..] in tx.snapshot
  }

  predicate Accounted(spec: Spec, tx: Tx, p: Path) {
    p in tx.resources || InSnapshot(spec, tx, p) || (tx.runtime && p == spec.runtimeRoot)
  }

  ghost predicate DiffersOnlyWhereAccounted(spec: Spec, orig: Tree, tree: Tree, tx: Tx, p: Path) {
    && (!Accounted(spec, tx, p) && p != spec.runtimeRoot ==> At(tree, p) == At(orig, p))
    && (p in orig ==> p in tree && tree[p].Dir? == orig[p].Dir? && tree[p].File? == orig[p].File?)
    && (InSnapshot(spec, tx, p) ==> p !in orig && !Managed(spec, p) && (p in tree ==> IsEntryNode(spec, p, tree[p])))
  }

  /** The runtime root is as before, or holds the distribution. */
  ghost predicate RuntimeIsKnown(spec: Spec, orig: Tree, tree: Tree, tx: Tx) {
    if spec.runtimeRoot in orig then At(tree, spec.runtimeRoot) == At(orig, spec.runtimeRoot) && !tx.runtime
    else spec.runtimeRoot in tree ==>
      tree[spec.runtimeRoot] == Subtree(spec.runtime, true) || (tx.runtime && tree[spec.runtimeRoot] == Subtree(spec.runtime, false))
  }

  /** A runtime stands that an attempt does not accept: one that the journal does not know of, or one whose
      removal a rollback began. */
  ghost predicate Obstructed(spec: Spec, orig: Tree, tree: Tree, tx: Tx) {
    && spec.runtimeRoot !in orig && spec.runtimeRoot in tree
    && !(tx.runtime && tree[spec.runtimeRoot] == Subtree(spec.runtime, true))
  }

  /** The distribution was renamed into place and the process stopped before the journal said so. */
  ghost predicate Orphaned(spec: Spec, orig: Tree, tree: Tree, tx: Tx) {
    spec.runtimeRoot !in orig && spec.runtimeRoot in tree && !tx.runtime
  }

  ghost predicate Differences(spec: Spec, orig: Tree, tree: Tree, tx: Tx) {
    && (forall p {:trigger Consider(p)} :: Consider(p) ==> DiffersOnlyWhereAccounted(spec, orig, tree, tx, p))
    && spec.runtimeRoot !in tx.resources && !Under(spec.runtimeRoot, spec.boundary)
    && RuntimeIsKnown(spec, orig, tree, tx)
    && (spec.stop in orig ==> At(tree, spec.stop) == At(orig, spec.stop))
  }

  ghost predicate Recorded(spec: Spec, orig: Tree, tree: Tree, tx: Tx, backups: map<Path, Bytes>, k: Path) {
    && (k in tx.resources ==>
          && Managed(spec, k) && tx.resources[k] == SaveOf(orig, k, IsDirectory(spec, k))
          && (k in tree ==> tree[k].Dir? == IsDirectory(spec, k) && !tree[k].Subtree?)
          && (k in orig && orig[k].File? ==> k in backups))
    && (k in backups ==> k in orig && orig[k].File? && backups[k] == orig[k].content)
  }

  ghost predicate Records(spec: Spec, orig: Tree, tree: Tree, tx: Tx, backups: map<Path, Bytes>) {
    forall k {:trigger Consider(k)} :: Consider(k) ==> Recorded(spec, orig, tree, tx, backups, k)
  }

  /** The journal accounts for every difference between `tree` and `orig`, and can undo it. */
  ghost predicate Recoverable(spec: Spec, orig: Tree, tree: Tree, tx: Tx, backups: map<Path, Bytes>) {
    && Closed(orig) && Closed(tree)
    && Differences(spec, orig, tree, tx)
    && Records(spec, orig, tree, tx, backups)
  }

  /** Every backup holds the bytes that the first attempt found. */
  ghost predicate BackupsMatch(orig: Tree, backups: map<Path, Bytes>) {
    forall k {:trigger Consider(k)} :: Consider(k) && k in backups ==>
      k in orig && orig[k].File? && backups[k] == orig[k].content
  }

  /** Names a path whose record a proof looks up. */
  ghost predicate Entered(p: Path) {
    true
  }

  /** No record is dropped. */
  ghost predicate TxGrows(a: Tx, b: Tx) {
    forall p {:trigger Entered(p)} :: Entered(p) ==>
      (p in a.resources ==> p in b.resources) && (p in a.snapshot ==> p in b.snapshot)
  }

  /** No backup is dropped or rewritten. */
  ghost predicate BackupsGrow(a: map<Path, Bytes>, b: map<Path, Bytes>) {
    forall p {:trigger Entered(p)} :: Entered(p) && p in a ==> p in b && b[p] == a[p]
  }

  lemma FreshIsRecoverable(spec: Spec, orig: Tree, backups: map<Path, Bytes>)
    requires Closed(orig) && BackupsMatch(orig, backups) && !Under(spec.runtimeRoot, spec.boundary)
    ensures Recoverable(spec, orig, orig, EMPTY_TX, backups)
  {
  }

  // ----- Install steps keep it ------------------------------------------------------------------------

  /** `_prepare_resource` records an untouched target; an existing backup is not rewritten. */
  lemma PrepareKeeps(spec: Spec, orig: Tree, tree: Tree, tx: Tx, backups: map<Path, Bytes>, k: Path,
                     tx': Tx, backups': map<Path, Bytes>)
    requires Recoverable(spec, orig, tree, tx, backups)
    requires Managed(spec, k) && k !in tx.resources && k != spec.runtimeRoot
    requires k in tree ==> tree[k].Dir? == IsDirectory(spec, k) && !tree[k].Subtree?
    requires tx' == tx.(resources := tx.resources[k := SaveOf(tree, k, IsDirectory(spec, k))])
    requires backups' == if k in tree && tree[k].File? && k !in backups then backups[k := tree[k].content] else backups
    ensures At(tree, k) == At(orig, k)
    ensures Recoverable(spec, orig, tree, tx', backups')
  {
    assert Consider(k);
  }

  /** Writing a journalled target inside an existing directory. */
  lemma WriteKeeps(spec: Spec, orig: Tree, tree: Tree, tx: Tx, backups: map<Path, Bytes>, k: Path, node: Node)
    requires Recoverable(spec, orig, tree, tx, backups)
    requires k in tx.resources && node.Dir? == IsDirectory(spec, k) && !node.Subtree?
    requires k != [] ==> IsDir(tree, Parent(k))
    requires k == spec.stop ==> k !in orig
    ensures Recoverable(spec, orig, tree[k := node], tx, backups)
  {
    assert Consider(k);
  }

  /** Writing a recorded snapshot entry, which no managed target coincides with. */
  lemma SnapshotWriteKeeps(spec: Spec, orig: Tree, tree: Tree, tx: Tx, backups: map<Path, Bytes>, p: Path, node: Node)
    requires Recoverable(spec, orig, tree, tx, backups)
    requires InSnapshot(spec, tx, p) && IsEntryNode(spec, p, node) && IsDir(tree, Parent(p))
    requires p in tree ==> tree[p].Dir? == node.Dir?
    ensures Recoverable(spec, orig, tree[p := node], tx, backups)
  {
    assert Consider(p);
  }

  lemma SnapshotRecordKeeps(spec: Spec, orig: Tree, tree: Tree, tx: Tx, backups: map<Path, Bytes>, rel: Path, tx': Tx)
    requires Recoverable(spec, orig, tree, tx, backups)
    requires rel != [] && spec.boundary + rel !in tree && !Managed(spec, spec.boundary + rel)
    requires tx' == tx.(snapshot := tx.snapshot + [rel])
    ensures Recoverable(spec, orig, tree, tx', backups)
  {
    forall p | Consider(p) ensures DiffersOnlyWhereAccounted(spec, orig, tree, tx', p) {
      if InSnapshot(spec, tx', p) && !InSnapshot(spec, tx, p) {
        assert p == spec.boundary + rel;
      }
    }
  }

  /** The extracted runtime appears by one rename. */
  lemma RuntimeKeeps(spec: Spec, orig: Tree, tree: Tree, tx: Tx, backups: map<Path, Bytes>)
    requires Recoverable(spec, orig, tree, tx, backups) && !Managed(spec, spec.runtimeRoot)
    requires spec.runtimeRoot !in tree && IsDir(tree, Parent(spec.runtimeRoot))
    ensures spec.runtimeRoot !in orig
    ensures Recoverable(spec, orig, tree[spec.runtimeRoot := Subtree(spec.runtime, true)], tx, backups)
  {
    assert Consider(spec.runtimeRoot);
  }

  /** Its removal begins. */
  lemma RuinKeeps(spec: Spec, orig: Tree, tree: Tree, tx: Tx, backups: map<Path, Bytes>)
    requires Recoverable(spec, orig, tree, tx, backups) && tx.runtime && spec.runtimeRoot in tree
    ensures Recoverable(spec, orig, tree[spec.runtimeRoot := Subtree(spec.runtime, false)], tx, backups)
  {
    assert Consider(spec.runtimeRoot);
  }

  /** Then the journal records it. */
  lemma RuntimeRecordKeeps(spec: Spec, orig: Tree, tree: Tree, tx: Tx, backups: map<Path, Bytes>, tx': Tx)
    requires Recoverable(spec, orig, tree, tx, backups) && spec.runtimeRoot !in orig
    requires tx' == tx.(runtime := true)
    ensures Recoverable(spec, orig, tree, tx', backups)
  {
  }

  // ----- Rollback steps keep it, and settle the tree -------------------------------------------------

  /** Removing something the installer added, once it is empty. */
  lemma RemoveKeeps(spec: Spec, orig: Tree, tree: Tree, tx: Tx, backups: map<Path, Bytes>, p: Path)
    requires Recoverable(spec, orig, tree, tx, backups)
    requires Accounted(spec, tx, p) && p !in orig && !HasChild(tree, p)
    ensures Recoverable(spec, orig, tree - {p}, tx, backups)
  {
    assert Consider(p);
  }

  lemma FilesHaveNoChildren(t: Tree, p: Path)
    requires Closed(t) && (p in t ==> !t[p].Dir?)
    ensures !HasChild(t, p)
  {
    forall q | q in t && q != [] ensures Parent(q) != p {
      assert Consider(q);
    }
  }

  function Chmod(node: Node, mode: nat): Node {
    match node
    case File(content, _, owner) => File(content, mode, owner)
    case Dir(_, owner) => Dir(mode, owner)
    case Subtree(manifest, intact) => Subtree(manifest, intact)
  }

  /** What rollback works towards: the original tree, except that its first act sets the repository
      boundary to 0700 even when that directory was never journalled. */
  function Target(spec: Spec, orig: Tree, tx: Tx): Tree {
    if IsDir(orig, spec.boundary) && spec.boundary !in tx.resources
    then orig[spec.boundary := Chmod(orig[spec.boundary], MODE_0700)]
    else orig
  }

  lemma BoundaryChmodKeeps(spec: Spec, orig: Tree, tree: Tree, tx: Tx, backups: map<Path, Bytes>)
    requires Recoverable(spec, orig, tree, tx, backups)
    requires IsDir(tree, spec.boundary)
    requires IsDirectory(spec, spec.boundary)
    requires spec.boundary != spec.runtimeRoot && spec.boundary != spec.stop
    ensures Recoverable(spec, Target(spec, orig, tx), tree[spec.boundary := Chmod(tree[spec.boundary], MODE_0700)], tx, backups)
  {
    var b := spec.boundary;
    assert Consider(b);
    if b in tx.resources {
      assert b != [] ==> IsDir(tree, Parent(b));
      WriteKeeps(spec, orig, tree, tx, backups, b, Chmod(tree[b], MODE_0700));
    }
  }

  /** Whatever lies in a directory that the installer added was added, and accounted for, too. */
  lemma AddedChild(spec: Spec, orig: Tree, tree: Tree, tx: Tx, backups: map<Path, Bytes>, p: Path, q: Path)
    requires Recoverable(spec, orig, tree, tx, backups)
    requires p !in orig && q in tree && q != [] && Parent(q) == p
    ensures q !in orig && (Accounted(spec, tx, q) || q == spec.runtimeRoot)
  {
    assert Consider(q);
  }

  /** Whatever lies in a recorded entry is recorded, and deeper. */
  lemma {:induction false} BelowEntry(spec: Spec, orig: Tree, tree: Tree, tx: Tx, backups: map<Path, Bytes>, rel: Path, q: Path)
    requires Recoverable(spec, orig, tree, tx, backups) && OneManifest(spec) && BoundaryIsShallow(spec)
    requires rel in tx.snapshot && rel != [] && q in tree && q != [] && Parent(q) == spec.boundary + rel
    ensures var r := q[|spec.boundary|..]; r in tx.snapshot && |r| > |rel| && spec.boundary + r == q
  {
    var p := spec.boundary + rel;
    assert p[..|spec.boundary|] == spec.boundary && p[|spec.boundary|..] == rel;
    assert InSnapshot(spec, tx, p) && Consider(p);
    AddedChild(spec, orig, tree, tx, backups, p, q);
    assert q[..|spec.boundary|] == p[..|spec.boundary|];
    ChildIsRecorded(spec, orig, tree, tx, backups, q);
  }

  /** So removing the deeper ones empties it. */
  lemma {:induction false} SnapshotDirectoryIsEmpty(spec: Spec, orig: Tree, tree: Tree, tx: Tx, backups: map<Path, Bytes>, rel: Path)
    requires Recoverable(spec, orig, tree, tx, backups) && OneManifest(spec) && BoundaryIsShallow(spec)
    requires rel in tx.snapshot && rel != []
    requires forall r :: r in tx.snapshot && |r| > |rel| ==> spec.boundary + r !in tree
    ensures !HasChild(tree, spec.boundary + rel)
  {
    if HasChild(tree, spec.boundary + rel) {
      var q :| q in tree && q != [] && Parent(q) == spec.boundary + rel;
      BelowEntry(spec, orig, tree, tx, backups, rel, q);
      assert false;
    }
  }

  lemma ChildIsRecorded(spec: Spec, orig: Tree, tree: Tree, tx: Tx, backups: map<Path, Bytes>, q: Path)
    requires Recoverable(spec, orig, tree, tx, backups) && OneManifest(spec) && BoundaryIsShallow(spec)
    requires Accounted(spec, tx, q) && Under(q, spec.boundary) && |q| > |spec.boundary| + 1
    ensures InSnapshot(spec, tx, q)
  {
    assert Consider(q);
  }

  ghost predicate SnapshotGone(spec: Spec, tree: Tree, tx: Tx) {
    forall p :: InSnapshot(spec, tx, p) ==> p !in tree
  }

  ghost predicate FilesSettled(spec: Spec, orig: Tree, tree: Tree, tx: Tx) {
    forall k :: k in tx.resources && IsFile(spec, k) ==> At(tree, k) == At(orig, k)
  }

  ghost predicate RuntimeGone(spec: Spec, tree: Tree, tx: Tx) {
    tx.runtime ==> spec.runtimeRoot !in tree
  }

  /** A STOP marker that was created, or a directory created to hold it: rollback never removes them. */
  ghost predicate HoldsStop(spec: Spec, orig: Tree, p: Path) {
    p !in orig && (p == spec.stop || Under(spec.stop, p))
  }

  /** What rollback leaves behind: the STOP marker, an orphaned runtime, and the directories made for them. */
  ghost predicate Leftover(spec: Spec, orig: Tree, tree: Tree, p: Path) {
    HoldsStop(spec, orig, p)
    || (spec.runtimeRoot !in orig && spec.runtimeRoot in tree && p !in orig
        && (p == spec.runtimeRoot || Under(spec.runtimeRoot, p)))
  }

  ghost predicate DirectoriesSettled(spec: Spec, orig: Tree, tree: Tree, tx: Tx, from: nat) {
    forall j :: from <= j < |spec.directories| && spec.directories[j].target in tx.resources ==>
      At(tree, spec.directories[j].target) == At(orig, spec.directories[j].target)
      || Leftover(spec, orig, tree, spec.directories[j].target)
  }

  /** The tree is the original one, apart from what rollback leaves behind. */
  ghost predicate Settled(spec: Spec, orig: Tree, tree: Tree) {
    forall p :: !Leftover(spec, orig, tree, p) ==> At(tree, p) == At(orig, p)
  }

  /** The tree is the original one, apart from the STOP marker and the directories made for it. */
  ghost predicate Restored(spec: Spec, orig: Tree, tree: Tree) {
    forall p :: !HoldsStop(spec, orig, p) ==> At(tree, p) == At(orig, p)
  }

  /** In full: at every path, except a new one that is the STOP marker or leads to it, the two trees agree. */
  lemma RestoredMeans(spec: Spec, orig: Tree, tree: Tree)
    ensures Restored(spec, orig, tree) <==>
              forall p :: p in orig || !(p <= spec.stop) ==> (p in tree <==> p in orig) && (p in tree ==> tree[p] == orig[p])
  {
    forall p ensures HoldsStop(spec, orig, p) <==> p !in orig && p <= spec.stop {
      assert p <= spec.stop ==> p == spec.stop[..|p|];
    }
    assert forall p :: At(tree, p) == At(orig, p) <==> (p in tree <==> p in orig) && (p in tree ==> tree[p] == orig[p]);
  }

  /** A settled tree is restored exactly when no runtime is left that was not there before. */
  lemma {:induction false} RestoredUnlessOrphaned(spec: Spec, orig: Tree, tree: Tree)
    requires DistinctStop(spec) && Settled(spec, orig, tree)
    ensures Restored(spec, orig, tree) <==> spec.runtimeRoot !in tree || spec.runtimeRoot in orig
  {
    if Restored(spec, orig, tree) {
      assert !HoldsStop(spec, orig, spec.runtimeRoot);
    }
  }

  lemma AddedDirectoryIsEmpty(spec: Spec, orig: Tree, tree: Tree, tx: Tx, backups: map<Path, Bytes>, i: nat)
    requires Recoverable(spec, orig, tree, tx, backups) && ParentsFirst(spec)
    requires SnapshotGone(spec, tree, tx) && FilesSettled(spec, orig, tree, tx) && RuntimeGone(spec, tree, tx)
    requires i < |spec.directories| && DirectoriesSettled(spec, orig, tree, tx, i + 1)
    requires var d := spec.directories[i].target; d !in orig && !Leftover(spec, orig, tree, d)
    ensures !HasChild(tree, spec.directories[i].target)
  {
    var d := spec.directories[i].target;
    if HasChild(tree, d) {
      var q :| q in tree && q != [] && Parent(q) == d;
      AddedChild(spec, orig, tree, tx, backups, d, q);
      assert Consider(q);
      LeftoverIsBelow(spec, orig, tree, d, q);
      assert false;
    }
  }

  lemma LeftoverIsBelow(spec: Spec, orig: Tree, tree: Tree, d: Path, q: Path)
    requires q != [] && Parent(q) == d && d !in orig
    ensures Leftover(spec, orig, tree, q) ==> Leftover(spec, orig, tree, d)
  {
    if Under(spec.stop, q) {
      assert spec.stop[..|d|] == spec.stop[..|q|][..|d|];
    }
    if Under(spec.runtimeRoot, q) {
      assert spec.runtimeRoot[..|d|] == spec.runtimeRoot[..|q|][..|d|];
    }
  }

  /** One more directory is settled, and nothing else moved. */
  lemma {:induction false} OneMoreSettled(spec: Spec, orig: Tree, before: Tree, after: Tree, tx: Tx, i: nat)
    requires i < |spec.directories| && DistinctDirectories(spec) && DistinctFiles(spec)
    requires SnapshotGone(spec, before, tx) && FilesSettled(spec, orig, before, tx) && RuntimeGone(spec, before, tx)
    requires DirectoriesSettled(spec, orig, before, tx, i + 1)
    requires var d := spec.directories[i].target;
             && (forall p :: p != d ==> At(after, p) == At(before, p)) && (d in after ==> d in before)
             && (d in tx.resources ==> At(after, d) == At(orig, d) || Leftover(spec, orig, before, d))
    ensures SnapshotGone(spec, after, tx) && FilesSettled(spec, orig, after, tx) && RuntimeGone(spec, after, tx)
    ensures DirectoriesSettled(spec, orig, after, tx, i)
  {
    var d := spec.directories[i].target;
    assert IsDirectory(spec, d);
    forall p | InSnapshot(spec, tx, p) ensures p !in after {
      assert At(after, p) == At(before, p) || p == d;
    }
    forall k | k in tx.resources && IsFile(spec, k) ensures At(after, k) == At(orig, k) {
      assert k != d && At(after, k) == At(before, k);
    }
    assert At(after, spec.runtimeRoot) == At(before, spec.runtimeRoot);
    forall j | i <= j < |spec.directories| && spec.directories[j].target in tx.resources
      ensures At(after, spec.directories[j].target) == At(orig, spec.directories[j].target)
              || Leftover(spec, orig, after, spec.directories[j].target)
    {
      if j > i {
        assert At(after, spec.directories[j].target) == At(before, spec.directories[j].target);
      }
    }
  }

  lemma EverythingSettled(spec: Spec, orig: Tree, tree: Tree, tx: Tx, backups: map<Path, Bytes>)
    requires Recoverable(spec, orig, tree, tx, backups)
    requires SnapshotGone(spec, tree, tx) && FilesSettled(spec, orig, tree, tx) && RuntimeGone(spec, tree, tx)
    requires DirectoriesSettled(spec, orig, tree, tx, 0)
    ensures Settled(spec, orig, tree)
  {
    forall p | !Leftover(spec, orig, tree, p) ensures At(tree, p) == At(orig, p) {
      assert Consider(p);
      if p in tx.resources {
        if !IsFile(spec, p) && p != spec.stop {
          assert IsDirectory(spec, p);
          var j :| 0 <= j < |spec.directories| && spec.directories[j].target == p;
        }
      } else if Accounted(spec, tx, p) {
        assert p !in orig && p !in tree;
      }
    }
  }

  // ----- Repeated attempts ------------------------------------------------------------------------------

  /** After a completed rollback the next attempt starts from a closed tree with matching backups. */
  lemma RolledBackIsFresh(spec: Spec, base: Tree, tree: Tree, tx: Tx, backups: map<Path, Bytes>)
    requires Recoverable(spec, base, tree, tx, backups) && Settled(spec, base, tree)
    ensures Closed(tree) && BackupsMatch(tree, backups)
  {
    forall k | Consider(k) && k in backups
      ensures k in tree && tree[k].File? && backups[k] == tree[k].content
    {
      assert At(tree, k) == At(base, k);
    }
  }

  /** What rollbacks make of the first tree: its boundary is set to 0700 unless every one of them had the
      boundary in its journal. */
  function Expected(spec: Spec, first: Tree, exact: bool): Tree {
    if !exact && IsDir(first, spec.boundary) then first[spec.boundary := Chmod(first[spec.boundary], MODE_0700)] else first
  }

  /** What any number of attempts leaves: exactly that, apart from what rollback leaves behind. */
  ghost predicate Unchanged(spec: Spec, first: Tree, tree: Tree, exact: bool) {
    forall p :: !Leftover(spec, first, tree, p) ==> At(tree, p) == At(Expected(spec, first, exact), p)
  }

  ghost predicate AllJournalled(spec: Spec, rollbacks: seq<Tx>) {
    forall i :: 0 <= i < |rollbacks| ==> spec.boundary in rollbacks[i].resources
  }

  lemma {:induction false} LeftoversCompose(spec: Spec, first: Tree, before: Tree, after: Tree, tx: Tx, exact: bool, p: Path)
    requires Unchanged(spec, first, before, exact) && Settled(spec, Target(spec, before, tx), after)
    requires !Leftover(spec, first, after, p)
    ensures !Leftover(spec, first, before, p) && !Leftover(spec, Target(spec, before, tx), after, p)
  {
    assert p in first ==> At(before, p) == At(Expected(spec, first, exact), p);
    assert spec.runtimeRoot in first ==> At(before, spec.runtimeRoot) == At(Expected(spec, first, exact), spec.runtimeRoot);
    assert spec.runtimeRoot in before ==> At(after, spec.runtimeRoot) == At(Target(spec, before, tx), spec.runtimeRoot);
  }

  lemma {:induction false} AttemptsCompose(spec: Spec, first: Tree, before: Tree, after: Tree, tx: Tx, exact: bool)
    requires Unchanged(spec, first, before, exact) && Settled(spec, Target(spec, before, tx), after)
    ensures Unchanged(spec, first, after, exact && spec.boundary in tx.resources)
  {
    var b := spec.boundary;
    forall p | !Leftover(spec, first, after, p)
      ensures At(after, p) == At(Expected(spec, first, exact && b in tx.resources), p)
    {
      LeftoversCompose(spec, first, before, after, tx, exact, p);
      assert b in first ==> At(before, b) == At(Expected(spec, first, exact), b);
    }
  }

  /** The boundary has its first mode again exactly when every rollback had journalled it, or it was not a
      directory, or its mode was 0700 to begin with. */
  lemma {:induction false} BoundaryRestoredExactly(spec: Spec, first: Tree, tree: Tree, exact: bool)
    requires Unchanged(spec, first, tree, exact) && spec.boundary in first
    ensures At(tree, spec.boundary) == At(first, spec.boundary) <==>
              exact || !IsDir(first, spec.boundary) || first[spec.boundary].mode == MODE_0700
  {
    assert !Leftover(spec, first, tree, spec.boundary);
  }

  /** The same for one rollback and the whole tree. */
  lemma {:induction false} RollbackIsExact(spec: Spec, orig: Tree, tx: Tx, tree: Tree)
    requires Settled(spec, Target(spec, orig, tx), tree)
    ensures Settled(spec, orig, tree) <==>
              spec.boundary in tx.resources || !IsDir(orig, spec.boundary) || orig[spec.boundary].mode == MODE_0700
  {
    var b, target := spec.boundary, Target(spec, orig, tx);
    assert forall p :: Leftover(spec, target, tree, p) <==> Leftover(spec, orig, tree, p);
    if b in orig {
      assert !Leftover(spec, orig, tree, b);
      assert At(tree, b) == At(target, b);
    }
    if IsDir(orig, b) && orig[b].mode == MODE_0700 {
      assert target == orig;
    }
  }

  /** Backups still hold the bytes of the very first attempt. */
  lemma BackupsAreOriginal(spec: Spec, first: Tree, tree: Tree, backups: map<Path, Bytes>, exact: bool, k: Path)
    requires Unchanged(spec, first, tree, exact) && BackupsMatch(tree, backups)
    requires k in backups && !Leftover(spec, first, tree, k)
    ensures k in first && first[k].File? && backups[k] == first[k].content
  {
    assert Consider(k);
    assert At(tree, k) == At(Expected(spec, first, exact), k);
  }

  // ----- Deepest first -------------------------------------------------------------------------------

  predicate DeepestFirst(s: seq<Path>) {
    forall i, j :: 0 <= i < j < |s| ==> |s[i]| >= |s[j]|
  }

  function Insert(p: Path, s: seq<Path>): (r: seq<Path>)
    requires DeepestFirst(s)
    ensures DeepestFirst(r)
    ensures forall q :: q in r <==> q == p || q in s
  {
    if s == [] || |p| >= |s[0]| then [p] + s
    else
      var rest := Insert(p, s[1..]);
      assert forall q :: q in s[1..] ==> |q| <= |s[0]| by {
        assert forall i :: 1 <= i < |s| ==> |s[i]| <= |s[0]|;
      }
      assert forall i :: 0 <= i < |rest| ==> rest[i] in rest;
      [s[0]] + rest
  }

  /** The order in which rollback visits recorded entries: by depth, deepest first. */
  function SortDeepestFirst(s: seq<Path>): (r: seq<Path>)
    ensures DeepestFirst(r)
    ensures forall q :: q in r <==> q in s
  {
    if s == [] then [] else Insert(s[0], SortDeepestFirst(s[1..]))
  }

  /** Once everything deeper is gone, the next recorded entry is empty and can go. */
  lemma {:induction false} EntryCanGo(spec: Spec, base: Tree, tree: Tree, tx: Tx, backups: map<Path, Bytes>, order: seq<Path>, i: nat)
    requires Recoverable(spec, base, tree, tx, backups) && OneManifest(spec) && BoundaryIsShallow(spec)
    requires DeepestFirst(order) && forall q :: q in order <==> q in tx.snapshot
    requires i < |order| && order[i] != [] && forall j :: 0 <= j < i ==> spec.boundary + order[j] !in tree
    ensures var p := spec.boundary + order[i];
            && !HasChild(tree, p) && (p in tree ==> !tree[p].Subtree?) && !Managed(spec, p)
            && Recoverable(spec, base, tree - {p}, tx, backups)
  {
    var p := spec.boundary + order[i];
    assert order[i] in order;
    assert InSnapshot(spec, tx, p) by {
      assert p[..|spec.boundary|] == spec.boundary && p[|spec.boundary|..] == order[i];
    }
    assert Consider(p);
    forall r | r in tx.snapshot && |r| > |order[i]| ensures spec.boundary + r !in tree {
      assert r in order;
      var j :| 0 <= j < |order| && order[j] == r;
    }
    SnapshotDirectoryIsEmpty(spec, base, tree, tx, backups, order[i]);
    RemoveKeeps(spec, base, tree, tx, backups, p);
  }
}
