/** The snapshot builder and its validator as the source runs them: loops that fill a staging tree, list it
    into an archive, and read the archive back member by member. */
module SnapshotBuilder {
  import opened Prelude
  import opened ObjectStream
  import opened StageTree
  import opened RepositorySnapshot

  // ----- Staging -------------------------------------------------------------------------------------

  /** While an object is materialised its content sits in the temporary file, which a tracked path may hit. */
  predicate AvoidsTemporary(t: Tracked) {
    t.path != [] && t.path[0] != TEMPORARY
  }

  predicate FreeOf(o: GitObject, tracked: seq<Tracked>) {
    forall k :: 0 <= k < |tracked| && Placed(o, tracked[k]) ==> AvoidsTemporary(tracked[k])
  }

  /** Copy one object to every tracked path that holds it. */
  method PlaceTracked(nodes: Nodes, o: GitObject, tracked: seq<Tracked>) returns (r: Option<Nodes>)
    ensures r == if FreeOf(o, tracked) then PlaceAll(nodes, TrackedItems(o, tracked)) else None
  {
    var filled := nodes;
    for k := 0 to |tracked|
      invariant forall j :: 0 <= j < k && Placed(o, tracked[j]) ==> AvoidsTemporary(tracked[j])
      invariant PlaceAll(nodes, TrackedItems(o, tracked)) == PlaceAll(filled, TrackedItems(o, tracked[k..]))
    {
      var t := tracked[k];
      assert tracked[k..][0] == t && tracked[k..][1..] == tracked[k + 1..];
      if Placed(o, t) {
        if !AvoidsTemporary(t) {
          return None;
        }
        ghost var rest := TrackedItems(o, tracked[k + 1..]);
        assert TrackedItems(o, tracked[k..]) == [TrackedItem(o, t)] + rest;
        assert ([TrackedItem(o, t)] + rest)[1..] == rest;
        var next := Place(filled, TrackedItem(o, t));
        if next.None? {
          return None;
        }
        filled := next.value;
      } else {
        assert TrackedItems(o, tracked[k..]) == TrackedItems(o, tracked[k + 1..]);
      }
    }
    return Some(filled);
  }

  /** Place a list of files in order. */
  method PlaceEach(nodes: Nodes, items: seq<Item<Held>>) returns (r: Option<Nodes>)
    ensures r == PlaceAll(nodes, items)
  {
    var filled := nodes;
    for k := 0 to |items|
      invariant PlaceAll(nodes, items) == PlaceAll(filled, items[k..])
    {
      assert items[k..][0] == items[k] && items[k..][1..] == items[k + 1..];
      var next := Place(filled, items[k]);
      if next.None? {
        return None;
      }
      filled := next.value;
    }
    return Some(filled);
  }

  predicate AllFree(objects: seq<GitObject>, tracked: seq<Tracked>) {
    forall i :: 0 <= i < |objects| ==> FreeOf(objects[i], tracked)
  }

  /** Write every object, loose, and every tracked file. */
  method Materialize(objects: seq<GitObject>, tracked: seq<Tracked>) returns (r: Option<Nodes>)
    requires forall i :: 0 <= i < |objects| ==> IsObjectId(objects[i].id)
    ensures r == if AllFree(objects, tracked) then PlaceAll(map[], ObjectItems(objects, tracked)) else None
  {
    var nodes: Nodes := map[];
    for i := 0 to |objects|
      invariant forall j :: 0 <= j < i ==> FreeOf(objects[j], tracked)
      invariant PlaceAll(map[], ObjectItems(objects, tracked)) == PlaceAll(nodes, ObjectItems(objects[i..], tracked))
    {
      var o := objects[i];
      assert objects[i..][0] == o && objects[i..][1..] == objects[i + 1..];
      ghost var first, rest := [ObjectItem(o)], ObjectItems(objects[i + 1..], tracked);
      PlaceAllAppend(nodes, first + TrackedItems(o, tracked), rest);
      PlaceAllAppend(nodes, first, TrackedItems(o, tracked));
      var placed := PlaceEach(nodes, [ObjectItem(o)]);
      if placed.None? {
        return None;
      }
      var copied := PlaceTracked(placed.value, o, tracked);
      if copied.None? {
        return None;
      }
      nodes := copied.value;
    }
    return Some(nodes);
  }

  // ----- The archive -----------------------------------------------------------------------------------

  /** Inventory the tree; every path of it is visited once. */
  method ListTree(nodes: Nodes) returns (archive: seq<Member>)
    ensures ListsTree(archive, nodes) && |archive| == |nodes|
  {
    archive := [];
    var left := nodes.Keys;
    while left != {}
      invariant left <= nodes.Keys
      invariant DistinctMembers(archive) && |archive| + |left| == |nodes.Keys|
      invariant forall i :: 0 <= i < |archive| ==>
        archive[i].path in nodes.Keys - left && archive[i] == AsMember(archive[i].path, nodes[archive[i].path])
      invariant forall p :: p in nodes.Keys - left ==> AsMember(p, nodes[p]) in archive
    {
      var p :| p in left;
      left := left - {p};
      archive := archive + [AsMember(p, nodes[p])];
    }
  }

  const MAX_ENTRIES: nat := 1_000_000

  predicate AllEntryPaths(archive: seq<Member>) {
    forall i :: 0 <= i < |archive| ==> EntryPath(archive[i].path)
  }

  /** Every listed path can stand in the inventory exactly when every tracked path can. */
  lemma {:induction false} InventoriedExactly(sha1: string -> string, c: Commit, nodes: Nodes, archive: seq<Member>)
    requires WellRead(sha1, c) && Reachable(c.objects, c.tracked) && Holds(nodes, Staged(c)) && ListsTree(archive, nodes)
    ensures AllEntryPaths(archive) <==> AllInventoried(c)
  {
    if AllEntryPaths(archive) {
      forall k | 0 <= k < |c.tracked| ensures c.tracked[k].path[0] != INVENTORY && EntryPath(c.tracked[k].path) {
        var x := TrackedIsStaged(sha1, c, k);
        ListedBranch(nodes, Staged(c), archive, x);
        assert x.path[..1] == [x.path[0]] && x.path[..|x.path|] == x.path;
      }
    }
    if AllInventoried(c) {
      forall i | 0 <= i < |archive| ensures EntryPath(archive[i].path) {
        ListedIsInventoried(sha1, c, nodes, archive[i].path);
      }
    }
  }

  lemma {:induction false} ListedBranch(nodes: Nodes, items: seq<Item<Held>>, archive: seq<Member>, x: Item<Held>)
    requires Holds(nodes, items) && ListsTree(archive, nodes) && AllEntryPaths(archive) && x in items && x.path != []
    ensures forall k :: 0 < k <= |x.path| ==> EntryPath(x.path[..k])
  {
    var j :| 0 <= j < |items| && items[j] == x;
    forall k | 0 < k <= |x.path| ensures EntryPath(x.path[..k]) {
      var p := x.path[..k];
      if k < |x.path| {
        assert Below(items[j].path, p);
        assert IsFolder(items, p);
      } else {
        assert p == x.path;
      }
      assert AsMember(p, nodes[p]) in archive;
    }
  }

  lemma {:induction false} StagedIsInventoried(sha1: string -> string, c: Commit, x: Item<Held>)
    requires WellRead(sha1, c) && AllInventoried(c) && x in Staged(c)
    ensures EntryPath(x.path) && x.path[0] != INVENTORY
  {
    StagedKinds(sha1, c, x);
    if i :| 0 <= i < |c.objects| && x == ObjectItem(c.objects[i]) {
      ObjectPathIsSafe(c.objects[i].id);
    } else if x in ControlItems(c) {
      var i :| 0 <= i < |ControlItems(c)| && ControlItems(c)[i] == x;
      ControlIsHarmless(c, i);
    }
  }

  lemma {:induction false} ListedIsInventoried(sha1: string -> string, c: Commit, nodes: Nodes, p: Path)
    requires WellRead(sha1, c) && AllInventoried(c) && Holds(nodes, Staged(c)) && p in nodes
    ensures EntryPath(p)
  {
    if nodes[p].File? {
      StagedIsInventoried(sha1, c, Item(p, nodes[p].value));
    } else {
      assert IsFolder(Staged(c), p);
      var i :| 0 <= i < |Staged(c)| && Below(Staged(c)[i].path, p);
      StagedIsInventoried(sha1, c, Staged(c)[i]);
      PrefixIsInventoried(Staged(c)[i].path, |p|);
    }
  }

  /** The checks of `_inventory`: each entry's path, and how many there are. */
  method CheckInventory(archive: seq<Member>) returns (ok: bool)
    ensures ok <==> AllEntryPaths(archive) && |archive| <= MAX_ENTRIES
  {
    for i := 0 to |archive|
      invariant forall j :: 0 <= j < i ==> EntryPath(archive[j].path)
    {
      if !EntryPath(archive[i].path) {
        return false;
      }
    }
    ok := |archive| <= MAX_ENTRIES;
  }

  function Entries(archive: seq<Member>): (entries: seq<Entry>)
    ensures ListsEntries(archive, entries)
  {
    seq(|archive|, i requires 0 <= i < |archive| => EntryOf(archive[i]))
  }

  function Infos(objects: seq<GitObject>): (infos: seq<ObjectInfo>)
    ensures ListsObjects(objects, infos)
  {
    seq(|objects|, i requires 0 <= i < |objects| => InfoOf(objects[i]))
  }

  predicate HasSource(items: seq<Item<Held>>, p: Path) {
    exists i :: 0 <= i < |items| && items[i].path == p
  }

  /** No tracked path starts with the name of the temporary file. */
  predicate NoneTemporary(tracked: seq<Tracked>) {
    forall k :: 0 <= k < |tracked| ==> tracked[k].path != [] && tracked[k].path[0] != ".object-content"
  }

  /** A commit that the builder can stage, index and inventory. */
  ghost predicate Buildable(indexes: Path -> bool, c: Commit)
    requires forall i :: 0 <= i < |c.objects| ==> IsObjectId(c.objects[i].id)
  {
    && Reachable(c.objects, c.tracked) && NoneTemporary(c.tracked) && Clean(Staged(c))
    && Indexed(indexes, c)
    && c.sourcePath.Some? && HasSource(Staged(c), c.sourcePath.value)
    && AllInventoried(c)
    && (PlaceAll(map[], Staged(c)).Some? ==> |PlaceAll(map[], Staged(c)).value| <= MAX_ENTRIES)
  }

  lemma {:induction false} FreeExactly(objects: seq<GitObject>, tracked: seq<Tracked>)
    requires Reachable(objects, tracked)
    ensures AllFree(objects, tracked) <==> NoneTemporary(tracked)
  {
    if AllFree(objects, tracked) {
      forall k | 0 <= k < |tracked| ensures tracked[k].path != [] && tracked[k].path[0] != ".object-content" {
        var i :| 0 <= i < |objects| && Placed(objects[i], tracked[k]);
        assert FreeOf(objects[i], tracked);
      }
    }
  }

  lemma {:induction false} SourceExactly(nodes: Nodes, items: seq<Item<Held>>, p: Path)
    requires Holds(nodes, items)
    ensures HasSource(items, p) <==> p in nodes && nodes[p].File?
  {
    if p in nodes && nodes[p].File? {
      var i :| 0 <= i < |items| && items[i] == Item(p, nodes[p].value);
      assert items[i].path == p;
    }
  }

  /** `git read-tree`: it reads every tracked path into the index or fails. */
  method ReadTree(indexes: Path -> bool, c: Commit) returns (ok: bool)
    ensures ok <==> Indexed(indexes, c)
  {
    for k := 0 to |c.tracked|
      invariant forall j :: 0 <= j < k ==> indexes(c.tracked[j].path)
    {
      if !indexes(c.tracked[k].path) {
        return false;
      }
    }
    return true;
  }

  /** The whole staged tree, or nothing. */
  method StageCommit(indexes: Path -> bool, c: Commit) returns (r: Option<Nodes>)
    requires forall i :: 0 <= i < |c.objects| ==> IsObjectId(c.objects[i].id)
    ensures r.Some? <==>
              Reachable(c.objects, c.tracked) && AllFree(c.objects, c.tracked) && Clean(Staged(c)) && Indexed(indexes, c)
    ensures r.Some? ==> r == PlaceAll(map[], Staged(c)) && Holds(r.value, Staged(c))
  {
    FilledExactly(Staged(c));
    PlaceAllAppend(map[], ObjectItems(c.objects, c.tracked), ControlItems(c));
    var objects := Materialize(c.objects, c.tracked);
    if objects.None? || !Reachable(c.objects, c.tracked) {
      return None;
    }
    r := PlaceEach(objects.value, ControlItems(c));
    var indexed := ReadTree(indexes, c);
    if !indexed {
      return None;
    }
  }

  /** The archive and manifest of a staged tree. */
  method WriteSnapshot(sha1: string -> string, c: Commit, nodes: Nodes) returns (r: Option<(seq<Member>, Manifest)>)
    requires WellRead(sha1, c) && Reachable(c.objects, c.tracked) && Holds(nodes, Staged(c))
    ensures r.Some? <==>
              c.sourcePath.Some? && HasSource(Staged(c), c.sourcePath.value) && AllInventoried(c) && |nodes| <= MAX_ENTRIES
    ensures r.Some? ==> Built(sha1, c, nodes, r.value.0, r.value.1) && Some(r.value.1.sourcePath) == c.sourcePath
  {
    if c.sourcePath.None? {
      return None;
    }
    var path := c.sourcePath.value;
    SourceExactly(nodes, Staged(c), path);
    if !(path in nodes && nodes[path].File?) {
      return None;
    }
    var archive := ListTree(nodes);
    InventoriedExactly(sha1, c, nodes, archive);
    var listed := CheckInventory(archive);
    if !listed {
      return None;
    }
    var source := AsMember(path, nodes[path]);
    assert source in archive;
    var m := Manifest(c.mainSha, path, Digest(source.raw), Entries(archive), Infos(c.objects));
    assert BindsSource(archive, m);
    return Some((archive, m));
  }

  /** Build, then validate.  A snapshot is built exactly when the commit can be staged, indexed by Git and
      inventoried, and its own validation never fails. */
  method BuildSnapshot(sha1: string -> string, indexes: Path -> bool, c: Commit) returns (r: Option<(seq<Member>, Manifest)>)
    requires WellRead(sha1, c) && GitRefusesItsOwn(indexes)
    ensures r.Some? <==> Buildable(indexes, c)
    ensures r.Some? ==>
              && HoldsCommit(c, r.value.0) && Describes(c, r.value.0, r.value.1)
              && Accepts(sha1, r.value.0, r.value.1)
  {
    if Reachable(c.objects, c.tracked) {
      FreeExactly(c.objects, c.tracked);
    }
    var staged := StageCommit(indexes, c);
    if staged.None? {
      return None;
    }
    r := FinishSnapshot(sha1, indexes, c, staged.value);
  }

  /** Write the archive and the manifest, and validate them. */
  method FinishSnapshot(sha1: string -> string, ghost indexes: Path -> bool, c: Commit, nodes: Nodes) returns (r: Option<(seq<Member>, Manifest)>)
    requires WellRead(sha1, c) && Reachable(c.objects, c.tracked) && Holds(nodes, Staged(c))
    requires GitRefusesItsOwn(indexes) && Indexed(indexes, c)
    ensures r.Some? <==>
              c.sourcePath.Some? && HasSource(Staged(c), c.sourcePath.value) && AllInventoried(c) && |nodes| <= MAX_ENTRIES
    ensures r.Some? ==>
              && HoldsCommit(c, r.value.0) && Describes(c, r.value.0, r.value.1)
              && Accepts(sha1, r.value.0, r.value.1)
  {
    r := WriteSnapshot(sha1, c, nodes);
    if r.Some? {
      var ok := SelfValidate(sha1, indexes, c, nodes, r.value.0, r.value.1);
      r := if ok then r else None;
    }
  }

  method SelfValidate(
      sha1: string -> string, ghost indexes: Path -> bool, ghost c: Commit, ghost nodes: Nodes, archive: seq<Member>, m: Manifest)
    returns (ok: bool)
    requires Built(sha1, c, nodes, archive, m) && GitRefusesItsOwn(indexes) && Indexed(indexes, c)
    requires Some(m.sourcePath) == c.sourcePath
    ensures ok && Accepts(sha1, archive, m) && HoldsCommit(c, archive) && Describes(c, archive, m)
  {
    BuiltIsAccepted(sha1, indexes, c, nodes, archive, m);
    BuiltHoldsCommit(sha1, c, nodes, archive, m);
    BuiltIsDescribed(sha1, c, nodes, archive, m);
    ok := ValidateArchive(sha1, archive, m);
  }

  // ----- The validator -----------------------------------------------------------------------------------

  function PathsIn(archive: seq<Member>): set<Path> {
    set i | 0 <= i < |archive| :: archive[i].path
  }

  predicate AllReadable(sha1: string -> string, archive: seq<Member>) {
    forall i :: 0 <= i < |archive| ==> Readable(sha1, archive[i])
  }

  lemma {:induction false} EntriesNext(sha1: string -> string, archive: seq<Member>, observed: seq<Entry>, x: Member)
    requires AllReadable(sha1, archive) && Readable(sha1, x) && ListsEntries(archive, observed)
    ensures AllReadable(sha1, archive + [x]) && ListsEntries(archive + [x], observed + [EntryOf(x)])
  {
  }

  /** What the validator has gathered after some members. */
  predicate Gathered(sha1: string -> string, archive: seq<Member>, observed: seq<Entry>, seen: set<Path>, objects: set<ObjectInfo>) {
    && DistinctMembers(archive) && AllReadable(sha1, archive)
    && ListsEntries(archive, observed)
    && seen == PathsIn(archive)
    && objects == ObjectsIn(sha1, archive)
  }

  lemma {:induction false} PathsInNext(archive: seq<Member>, x: Member)
    ensures PathsIn(archive + [x]) == PathsIn(archive) + {x.path}
    ensures DistinctMembers(archive) && x.path !in PathsIn(archive) ==> DistinctMembers(archive + [x])
  {
    var all := archive + [x];
    assert all[|archive|] == x;
    forall p | p in PathsIn(archive) ensures p in PathsIn(all) {
      var i :| 0 <= i < |archive| && archive[i].path == p;
      assert all[i] == archive[i];
    }
  }

  lemma {:induction false} ObjectsInNext(sha1: string -> string, archive: seq<Member>, x: Member)
    ensures ObjectsIn(sha1, archive + [x]) ==
            ObjectsIn(sha1, archive) + Found(sha1, x)
  {
    var all := archive + [x];
    assert all[|archive|] == x;
    forall info | info in ObjectsIn(sha1, archive) ensures info in ObjectsIn(sha1, all) {
      var i :| 0 <= i < |archive| && ObjectIn(sha1, archive[i]) == Some(info);
      assert all[i] == archive[i];
    }
  }

  function Found(sha1: string -> string, x: Member): set<ObjectInfo> {
    if ObjectIn(sha1, x).Some? then {ObjectIn(sha1, x).value} else {}
  }

  lemma {:induction false} GatherMore(
      sha1: string -> string, front: seq<Member>, observed: seq<Entry>, seen: set<Path>, objects: set<ObjectInfo>, x: Member)
    requires Gathered(sha1, front, observed, seen, objects) && Readable(sha1, x) && x.path !in seen
    ensures Gathered(sha1, front + [x], observed + [EntryOf(x)], seen + {x.path}, objects + Found(sha1, x))
  {
    ObjectsInNext(sha1, front, x);
    PathsInNext(front, x);
    EntriesNext(sha1, front, observed, x);
  }

  lemma {:induction false} GatherNext(
      sha1: string -> string, archive: seq<Member>, i: nat, observed: seq<Entry>, seen: set<Path>, objects: set<ObjectInfo>)
    requires i < |archive| && Gathered(sha1, archive[..i], observed, seen, objects)
    requires Readable(sha1, archive[i]) && archive[i].path !in seen
    ensures var x := archive[i];
            Gathered(sha1, archive[..i + 1], observed + [EntryOf(x)], seen + {x.path}, objects + Found(sha1, x))
  {
    assert archive[..i + 1] == archive[..i] + [archive[i]];
    GatherMore(sha1, archive[..i], observed, seen, objects, archive[i]);
  }

  lemma {:induction false} RefusedMember(sha1: string -> string, archive: seq<Member>, i: nat, observed: seq<Entry>, seen: set<Path>, objects: set<ObjectInfo>)
    requires i < |archive| && Gathered(sha1, archive[..i], observed, seen, objects)
    requires !Readable(sha1, archive[i]) || archive[i].path in seen
    ensures !(DistinctMembers(archive) && AllReadable(sha1, archive))
  {
    if archive[i].path in seen {
      var j :| 0 <= j < i && archive[..i][j].path == archive[i].path;
      assert archive[j].path == archive[i].path;
    }
  }

  /** Read the members in order: refuse unsafe, repeated or misframed ones, and gather the rest. */
  method ReadMembers(sha1: string -> string, archive: seq<Member>)
    returns (ok: bool, observed: seq<Entry>, objects: set<ObjectInfo>)
    ensures ok <==> DistinctMembers(archive) && AllReadable(sha1, archive)
    ensures ok ==> ListsEntries(archive, observed) && objects == ObjectsIn(sha1, archive)
  {
    observed, objects := [], {};
    var seen: set<Path> := {};
    for i := 0 to |archive|
      invariant Gathered(sha1, archive[..i], observed, seen, objects)
    {
      var x := archive[i];
      if x.path in seen || !Readable(sha1, x) {
        RefusedMember(sha1, archive, i, observed, seen, objects);
        return false, observed, objects;
      }
      GatherNext(sha1, archive, i, observed, seen, objects);
      observed, seen, objects := observed + [EntryOf(x)], seen + {x.path}, objects + Found(sha1, x);
    }
    assert archive[..|archive|] == archive;
    return true, observed, objects;
  }

  /** `validate_repository_snapshot_archive`. */
  method ValidateArchive(sha1: string -> string, archive: seq<Member>, m: Manifest) returns (ok: bool)
    ensures ok <==> Accepts(sha1, archive, m)
  {
    var read, observed, objects := ReadMembers(sha1, archive);
    if !read || observed != m.entries || objects != (set x | x in m.objects) {
      return false;
    }
    if !BindsSource(archive, m) || !HasText(archive, HEAD, Plain(HEAD_TEXT))
       || !HasText(archive, MAIN_REF, Plain(m.mainSha + "\n")) || !HasSafeConfig(archive) {
      return false;
    }
    ok := !exists i :: 0 <= i < |archive| && ForeignGit(archive[i]);
  }
}
