/** The installed Python runtime archive: validation, all-or-nothing extraction and the check of the
    extracted tree (deployment/runtime_distribution.py).

    A member holds its uncompressed bytes; links, directories and special members are not `regular`. */
module RuntimeDistribution {
  import opened Prelude
  import opened StageTree

  datatype Member = Member(path: Path, regular: bool, mode: int, content: Bytes)

  datatype Entry = Entry(path: Path, mode: int, size: nat, digest: Digest<Bytes>)

  datatype Manifest = Manifest(archiveDigest: Digest<seq<Member>>, entries: seq<Entry>)

  datatype Content = Content(mode: int, bytes: Bytes)

  type Nodes = map<Path, Node<Content>>

  const CHUNK: nat := 1_048_576
  const MAX_MEMBER: nat := 512_000_000
  const MAX_TOTAL: nat := 4_000_000_000

  predicate SafePath(p: Path) {
    p != [] && forall i :: 0 <= i < |p| ==> p[i] != "" && p[i] != "." && p[i] != ".."
  }

  /** What the manifest's own validator guarantees of its inventory. */
  predicate ExactInventory(m: Manifest) {
    && (forall i :: 0 <= i < |m.entries| ==> SafePath(m.entries[i].path))
    && (forall i, j :: 0 <= i < j < |m.entries| ==> m.entries[i].path != m.entries[j].path)
  }

  // ----- The archive ---------------------------------------------------------------------------------

  function Total(archive: seq<Member>): nat {
    if archive == [] then 0 else |archive[0].content| + Total(archive[1..])
  }

  predicate SafeMember(x: Member) {
    x.regular && SafePath(x.path) && |x.content| <= MAX_MEMBER
  }

  predicate Distinct(archive: seq<Member>) {
    forall i, j :: 0 <= i < j < |archive| ==> archive[i].path != archive[j].path
  }

  predicate SafeArchive(archive: seq<Member>) {
    && (forall i :: 0 <= i < |archive| ==> SafeMember(archive[i]))
    && Distinct(archive)
    && Total(archive) <= MAX_TOTAL
  }

  predicate Listed(m: Manifest, p: Path) {
    exists k :: 0 <= k < |m.entries| && m.entries[k].path == p
  }

  predicate MatchesEntry(x: Member, e: Entry) {
    x.path == e.path && x.mode == e.mode && |x.content| == e.size && Digest(x.content) == e.digest
  }

  predicate HasMatch(archive: seq<Member>, e: Entry) {
    exists i :: 0 <= i < |archive| && MatchesEntry(archive[i], e)
  }

  predicate EntriesMatch(archive: seq<Member>, entries: seq<Entry>) {
    forall k :: 0 <= k < |entries| ==> HasMatch(archive, entries[k])
  }

  /** `validate_runtime_distribution` returns. */
  predicate Valid(archive: seq<Member>, m: Manifest) {
    && Digest(archive) == m.archiveDigest && SafeArchive(archive)
    && (forall i :: 0 <= i < |archive| ==> Listed(m, archive[i].path))
    && EntriesMatch(archive, m.entries)
  }

  predicate Indexes(members: map<Path, Member>, archive: seq<Member>) {
    && (forall i :: 0 <= i < |archive| ==> archive[i].path in members && members[archive[i].path] == archive[i])
    && (forall p :: p in members ==> members[p] in archive && members[p].path == p)
  }

  lemma {:induction false} IndexNext(members: map<Path, Member>, archive: seq<Member>, i: nat)
    requires i < |archive| && Indexes(members, archive[..i]) && Distinct(archive[..i])
    ensures var x := archive[i];
            if x.path in members then !Distinct(archive)
            else Indexes(members[x.path := x], archive[..i + 1]) && Distinct(archive[..i + 1])
  {
    var x := archive[i];
    assert archive[..i + 1] == archive[..i] + [x];
    if x.path in members {
      var j :| 0 <= j < i && archive[..i][j] == members[x.path];
      assert archive[j].path == archive[i].path;
    }
  }

  /** The members by path; any unsafe one refuses the archive. */
  method ArchiveMembers(archive: seq<Member>) returns (r: Option<map<Path, Member>>)
    ensures r.Some? <==> SafeArchive(archive)
    ensures r.Some? ==> Indexes(r.value, archive)
  {
    var members: map<Path, Member>, total := map[], 0;
    for i := 0 to |archive|
      invariant total + Total(archive[i..]) == Total(archive)
      invariant total <= MAX_TOTAL
      invariant forall j :: 0 <= j < i ==> SafeMember(archive[j])
      invariant Distinct(archive[..i]) && Indexes(members, archive[..i])
    {
      var x := archive[i];
      IndexNext(members, archive, i);
      if !x.regular || !SafePath(x.path) || x.path in members || |x.content| > MAX_MEMBER {
        return None;
      }
      assert archive[i..][1..] == archive[i + 1..];
      total := total + |x.content|;
      if total > MAX_TOTAL {
        return None;
      }
      members := members[x.path := x];
    }
    assert archive[..|archive|] == archive;
    return Some(members);
  }

  /** Read a member in chunks, stopping as soon as it is longer than its entry says. */
  method ReadMember(content: Bytes, limit: nat) returns (ok: bool, read: Bytes)
    ensures ok <==> |content| <= limit
    ensures ok ==> read == content
  {
    read := [];
    while |read| < |content|
      invariant |read| <= |content| && read == content[..|read|]
      invariant |read| <= limit
    {
      var end := if |content| - |read| < CHUNK then |content| else |read| + CHUNK;
      if end > limit {
        return false, read;
      }
      read := read + content[|read|..end];
    }
    return true, read;
  }

  lemma MemberOf(archive: seq<Member>, members: map<Path, Member>, e: Entry)
    requires Indexes(members, archive)
    ensures HasMatch(archive, e) <==> e.path in members && MatchesEntry(members[e.path], e)
  {
  }

  function Names(m: Manifest): set<Path> {
    set i | 0 <= i < |m.entries| :: m.entries[i].path
  }

  lemma NamesExactly(archive: seq<Member>, members: map<Path, Member>, m: Manifest)
    requires Indexes(members, archive)
    ensures members.Keys <= Names(m) <==> forall i :: 0 <= i < |archive| ==> Listed(m, archive[i].path)
  {
    if forall i :: 0 <= i < |archive| ==> Listed(m, archive[i].path) {
      forall p | p in members ensures p in Names(m) {
        var i :| 0 <= i < |archive| && archive[i] == members[p];
      }
    }
  }

  lemma MissingName(archive: seq<Member>, members: map<Path, Member>, m: Manifest)
    requires Indexes(members, archive) && EntriesMatch(archive, m.entries)
    ensures Names(m) <= members.Keys
  {
    forall k | 0 <= k < |m.entries| ensures m.entries[k].path in members {
      MemberOf(archive, members, m.entries[k]);
    }
  }

  method ValidateDistribution(archive: seq<Member>, m: Manifest) returns (ok: bool)
    ensures ok <==> Valid(archive, m)
  {
    var members := ArchiveMembers(archive);
    if Digest(archive) != m.archiveDigest || members.None? {
      return false;
    }
    NamesExactly(archive, members.value, m);
    if members.value.Keys != Names(m) {
      if EntriesMatch(archive, m.entries) {
        MissingName(archive, members.value, m);
      }
      return false;
    }
    ok := MembersMatch(archive, members.value, m.entries);
  }

  method MembersMatch(archive: seq<Member>, members: map<Path, Member>, entries: seq<Entry>) returns (ok: bool)
    requires Indexes(members, archive) && forall k :: 0 <= k < |entries| ==> entries[k].path in members
    ensures ok <==> EntriesMatch(archive, entries)
  {
    for k := 0 to |entries|
      invariant forall j :: 0 <= j < k ==> HasMatch(archive, entries[j])
    {
      var e := entries[k];
      var x := members[e.path];
      var fits, read := ReadMember(x.content, e.size);
      MemberOf(archive, members, e);
      if !fits || x.mode != e.mode || |read| != e.size || Digest(read) != e.digest {
        return false;
      }
    }
    return true;
  }

  // ----- The extracted tree ----------------------------------------------------------------------------

  function Body(d: Digest<Bytes>): Bytes {
    if d.Digest? then d.preimage else []
  }

  /** The files that the manifest describes. */
  function Items(entries: seq<Entry>): seq<Item<Content>> {
    seq(|entries|, i requires 0 <= i < |entries| => Item(entries[i].path, Content(entries[i].mode, Body(entries[i].digest))))
  }

  /** No entry is a directory of another. */
  predicate NoneInside(m: Manifest) {
    forall i, j :: 0 <= i < |m.entries| && 0 <= j < |m.entries| ==> !Below(m.entries[i].path, m.entries[j].path)
  }

  lemma CleanExactly(m: Manifest)
    requires ExactInventory(m)
    ensures Clean(Items(m.entries)) <==> NoneInside(m)
  {
    var items := Items(m.entries);
    if Clean(items) {
      forall i, j | 0 <= i < |m.entries| && 0 <= j < |m.entries| ensures !Below(m.entries[i].path, m.entries[j].path) {
        assert items[i].path == m.entries[i].path && items[j].path == m.entries[j].path;
        assert i < j ==> !Clash(items[i].path, items[j].path);
        assert j < i ==> !Clash(items[j].path, items[i].path);
      }
    }
  }

  /** A directory tree on disk; `closed` are the directories with mode 0555, the root among them as `[]`. */
  datatype Tree = Tree(nodes: Nodes, closed: set<Path>)

  predicate HoldsEntry(nodes: Nodes, e: Entry) {
    && e.path in nodes && nodes[e.path].File?
    && var Content(mode, bytes) := nodes[e.path].value;
    mode == e.mode && |bytes| == e.size && Digest(bytes) == e.digest
  }

  /** `validate_extracted_runtime_distribution` returns. */
  predicate Accepted(tree: Option<Tree>, m: Manifest) {
    && tree.Some?
    && var Tree(nodes, closed) := tree.value;
    && (forall p :: p in nodes && nodes[p].Folder? ==> p in closed)
    && (forall p :: p in nodes && nodes[p].File? ==> Listed(m, p))
    && (forall k :: 0 <= k < |m.entries| ==> HoldsEntry(nodes, m.entries[k]))
  }

  method ValidateExtracted(tree: Option<Tree>, m: Manifest) returns (ok: bool)
    ensures ok <==> Accepted(tree, m)
  {
    if tree.None? {
      return false;
    }
    var Tree(nodes, closed) := tree.value;
    var left, files: set<Path> := nodes.Keys, {};
    while left != {}
      invariant left <= nodes.Keys
      invariant files == set p | p in nodes.Keys - left && nodes[p].File?
      invariant forall p :: p in nodes.Keys - left && nodes[p].Folder? ==> p in closed
    {
      var p :| p in left;
      left := left - {p};
      if nodes[p].File? {
        files := files + {p};
      } else if p !in closed {
        return false;
      }
    }
    if files != Names(m) {
      if !(files <= Names(m)) {
        ghost var p :| p in files && p !in Names(m);
        assert !Listed(m, p);
      } else {
        assert !(Names(m) <= files);
        ghost var p :| p in Names(m) && p !in files;
        ghost var k :| 0 <= k < |m.entries| && m.entries[k].path == p;
        assert !HoldsEntry(nodes, m.entries[k]);
      }
      return false;
    }
    for k := 0 to |m.entries|
      invariant forall j :: 0 <= j < k ==> HoldsEntry(nodes, m.entries[j])
    {
      var e := m.entries[k];
      assert e.path in Names(m);
      var c := nodes[e.path].value;
      if c.mode != e.mode || |c.bytes| != e.size || Digest(c.bytes) != e.digest {
        return false;
      }
    }
    forall p | p in nodes && nodes[p].File? ensures Listed(m, p) {
      assert p in Names(m);
    }
    return true;
  }

  /** The destination after extraction: the entries' files, the directories above them, all closed. */
  ghost predicate Extracted(tree: Tree, m: Manifest) {
    Holds(tree.nodes, Items(m.entries)) && [] in tree.closed && forall p :: p in tree.nodes && tree.nodes[p].Folder? ==> p in tree.closed
  }

  lemma {:induction false} ExtractedIsAccepted(tree: Tree, archive: seq<Member>, m: Manifest)
    requires Valid(archive, m) && Extracted(tree, m)
    ensures Accepted(Some(tree), m)
  {
    var items := Items(m.entries);
    forall p | p in tree.nodes && tree.nodes[p].File? ensures Listed(m, p) {
      var k :| 0 <= k < |items| && items[k] == Item(p, tree.nodes[p].value);
      assert m.entries[k].path == p;
    }
    forall k | 0 <= k < |m.entries| ensures HoldsEntry(tree.nodes, m.entries[k]) {
      EntryIsHeld(tree.nodes, archive, m.entries, k);
    }
  }

  lemma {:induction false} EntryIsHeld(nodes: Nodes, archive: seq<Member>, entries: seq<Entry>, k: nat)
    requires k < |entries| && HasMatch(archive, entries[k]) && HoldsFiles(nodes, Items(entries))
    ensures HoldsEntry(nodes, entries[k])
  {
    var x := Items(entries)[k];
    assert nodes[x.path] == File(x.value);
  }

  /** The tree holds exactly the archive: each member's bytes with its mode under its own path, no other file, and
      no directory but those above them, all closed. */
  ghost predicate HoldsArchive(tree: Tree, archive: seq<Member>) {
    && (forall x :: x in archive ==> x.path in tree.nodes && tree.nodes[x.path] == File(Content(x.mode, x.content)))
    && (forall p :: p in tree.nodes && tree.nodes[p].File? ==> exists x :: x in archive && x.path == p)
    && (forall p :: p in tree.nodes && tree.nodes[p].Folder? ==>
          p in tree.closed && exists x :: x in archive && |x.path| > |p| && x.path[..|p|] == p)
  }

  lemma {:induction false} MemberIsExtracted(tree: Tree, archive: seq<Member>, m: Manifest, x: Member)
    requires Valid(archive, m) && Extracted(tree, m) && x in archive
    ensures x.path in tree.nodes && tree.nodes[x.path] == File(Content(x.mode, x.content))
  {
    var i :| 0 <= i < |archive| && archive[i] == x;
    assert Listed(m, archive[i].path);
    var k :| 0 <= k < |m.entries| && m.entries[k].path == x.path;
    assert HasMatch(archive, m.entries[k]);
    var j :| 0 <= j < |archive| && MatchesEntry(archive[j], m.entries[k]);
    assert i == j;
    var item := Items(m.entries)[k];
    assert tree.nodes[item.path] == File(item.value);
  }

  lemma {:induction false} EntryIsArchived(archive: seq<Member>, m: Manifest, k: nat) returns (x: Member)
    requires Valid(archive, m) && k < |m.entries|
    ensures x in archive && MatchesEntry(x, m.entries[k])
  {
    assert HasMatch(archive, m.entries[k]);
    var j :| 0 <= j < |archive| && MatchesEntry(archive[j], m.entries[k]);
    x := archive[j];
  }

  lemma {:induction false} ExtractedHoldsArchive(tree: Tree, archive: seq<Member>, m: Manifest)
    requires Valid(archive, m) && Extracted(tree, m)
    ensures HoldsArchive(tree, archive)
  {
    var items := Items(m.entries);
    forall x | x in archive ensures x.path in tree.nodes && tree.nodes[x.path] == File(Content(x.mode, x.content)) {
      MemberIsExtracted(tree, archive, m, x);
    }
    forall p | p in tree.nodes && tree.nodes[p].File? ensures exists x :: x in archive && x.path == p {
      var k :| 0 <= k < |items| && items[k] == Item(p, tree.nodes[p].value);
      var x := EntryIsArchived(archive, m, k);
    }
    forall p | p in tree.nodes && tree.nodes[p].Folder? ensures exists x :: x in archive && |x.path| > |p| && x.path[..|p|] == p {
      assert IsFolder(items, p);
      var k :| 0 <= k < |items| && Below(items[k].path, p);
      var x := EntryIsArchived(archive, m, k);
      assert x.path == items[k].path;
    }
  }

  /** What validation guarantees: only regular members with proper paths and bounded sizes, each listed once with
      its mode, size and digest. */
  lemma {:induction false} ValidMeans(archive: seq<Member>, m: Manifest)
    requires Valid(archive, m) && ExactInventory(m)
    ensures forall x :: x in archive ==>
              && x.regular && |x.content| <= 512_000_000
              && x.path != [] && (forall i :: 0 <= i < |x.path| ==> x.path[i] != "" && x.path[i] != "." && x.path[i] != "..")
              && Entry(x.path, x.mode, |x.content|, Digest(x.content)) in m.entries
    ensures |archive| == |m.entries| && Total(archive) <= 4_000_000_000 && m.archiveDigest == Digest(archive)
  {
    forall x | x in archive ensures Entry(x.path, x.mode, |x.content|, Digest(x.content)) in m.entries {
      var i :| 0 <= i < |archive| && archive[i] == x;
      assert Listed(m, archive[i].path);
      var k :| 0 <= k < |m.entries| && m.entries[k].path == x.path;
      var y := EntryIsArchived(archive, m, k);
      var j :| 0 <= j < |archive| && archive[j] == y;
      assert i == j;
    }
    SameCount(archive, m);
  }

  function Paths(archive: seq<Member>): seq<Path> {
    seq(|archive|, i requires 0 <= i < |archive| => archive[i].path)
  }

  function EntryPaths(entries: seq<Entry>): seq<Path> {
    seq(|entries|, i requires 0 <= i < |entries| => entries[i].path)
  }

  lemma {:induction false} SamePaths(archive: seq<Member>, m: Manifest, p: Path)
    requires Valid(archive, m)
    ensures p in Paths(archive) <==> p in EntryPaths(m.entries)
  {
    if p in Paths(archive) {
      var i :| 0 <= i < |archive| && Paths(archive)[i] == p;
      assert Listed(m, archive[i].path);
      var k :| 0 <= k < |m.entries| && m.entries[k].path == p;
      assert EntryPaths(m.entries)[k] == p;
    }
    if p in EntryPaths(m.entries) {
      var k :| 0 <= k < |m.entries| && EntryPaths(m.entries)[k] == p;
      var x := EntryIsArchived(archive, m, k);
      var i :| 0 <= i < |archive| && archive[i] == x;
      assert Paths(archive)[i] == p;
    }
  }

  /** As many members as entries: the paths of both are distinct and the same. */
  lemma {:induction false} SameCount(archive: seq<Member>, m: Manifest)
    requires Valid(archive, m) && ExactInventory(m)
    ensures |archive| == |m.entries|
  {
    var a, b := Paths(archive), EntryPaths(m.entries);
    forall p ensures p in a <==> p in b {
      SamePaths(archive, m, p);
    }
    CountDistinct(a);
    CountDistinct(b);
    assert (set p | p in a) == (set p | p in b);
  }

  lemma {:induction false} CountDistinct(s: seq<Path>)
    requires forall i, j :: 0 <= i < j < |s| ==> s[i] != s[j]
    ensures |set p | p in s| == |s|
  {
    if s != [] {
      var front := s[..|s| - 1];
      CountDistinct(front);
      assert (set p | p in s) == (set p | p in front) + {s[|s| - 1]};
    }
  }

  /** The check of the extracted tree pins down every file; only empty directories are free. */
  lemma {:induction false} AcceptedPinsFiles(a: Tree, b: Tree, m: Manifest, p: Path)
    requires Accepted(Some(a), m) && Accepted(Some(b), m)
    requires p in a.nodes && a.nodes[p].File?
    ensures p in b.nodes && b.nodes[p] == a.nodes[p]
  {
    var k :| 0 <= k < |m.entries| && m.entries[k].path == p;
    assert HoldsEntry(a.nodes, m.entries[k]) && HoldsEntry(b.nodes, m.entries[k]);
    var x, y := a.nodes[p].value, b.nodes[p].value;
    assert Digest(x.bytes) == Digest(y.bytes) && x == y;
  }

  // ----- Extraction --------------------------------------------------------------------------------------

  lemma {:induction false} Deepest(paths: set<Path>) returns (p: Path)
    requires paths != {}
    ensures p in paths && forall q :: q in paths ==> |q| <= |p|
    decreases |paths|
  {
    var x :| x in paths;
    if paths == {x} {
      p := x;
    } else {
      var y := Deepest(paths - {x});
      p := if |y| < |x| then x else y;
    }
  }

  /** The directory that holds the runtime, and the temporary stage beside it. */
  class Host {
    var destination: Option<Tree>
    var stage: Option<Tree>

    /** Remove the stage, children before parents. */
    method RemoveStage()
      requires stage.Some?
      modifies this`stage
      ensures stage == None
    {
      var nodes := stage.value.nodes;
      while nodes != map[]
        invariant stage.Some?
        decreases |nodes|
      {
        ghost var deepest := Deepest(nodes.Keys);
        var p :| p in nodes && forall q :: q in nodes ==> !Below(q, p);
        nodes := nodes - {p};
        stage := Some(stage.value.(nodes := nodes));
      }
      stage := None;
    }

    /** One file of the stage: its parents, its bytes in chunks, its mode. */
    method WriteEntry(e: Entry, x: Member) returns (ok: bool)
      requires stage.Some? && MatchesEntry(x, e)
      modifies this`stage
      ensures stage.Some? && stage.value.closed == old(stage.value.closed)
      ensures ok <==> CanPlace(old(stage.value.nodes), e.path)
      ensures ok ==> Some(stage.value.nodes) == Place(old(stage.value.nodes), Item(e.path, Content(e.mode, Body(e.digest))))
    {
      var nodes := stage.value.nodes;
      if !CanPlace(nodes, e.path) {
        return false;
      }
      var fits, read := ReadMember(x.content, e.size);
      if !fits || |read| != e.size {
        return false;
      }
      stage := Some(stage.value.(nodes := Place(nodes, Item(e.path, Content(e.mode, read))).value));
      return true;
    }

    /** Every entry in turn; `fault` is the step at which the system fails, if any. */
    method Fill(archive: seq<Member>, m: Manifest, fault: nat) returns (ok: bool)
      requires stage == Some(Tree(map[], {})) && SafeArchive(archive) && EntriesMatch(archive, m.entries)
      modifies this`stage
      ensures stage.Some?
      ensures ok <==> PlaceAll(map[], Items(m.entries)).Some? && fault >= |m.entries|
      ensures ok ==> stage == Some(Tree(PlaceAll(map[], Items(m.entries)).value, {}))
    {
      var members := ArchiveMembers(archive);
      ghost var items := Items(m.entries);
      var k := 0;
      while k < |m.entries|
        invariant k <= |m.entries| && k <= fault
        invariant stage.Some? && stage.value.closed == {}
        invariant PlaceAll(map[], items) == PlaceAll(stage.value.nodes, items[k..])
      {
        var e := m.entries[k];
        MemberOf(archive, members.value, e);
        assert items[k..][0] == items[k] && items[k..][1..] == items[k + 1..];
        if k == fault {
          return false;
        }
        var written := WriteEntry(e, members.value[e.path]);
        if !written {
          return false;
        }
        k := k + 1;
      }
      return true;
    }

    /** Close every directory of the stage, then its root. */
    method Seal()
      requires stage.Some?
      modifies this`stage
      ensures stage.Some? && stage.value.nodes == old(stage.value.nodes)
      ensures [] in stage.value.closed
      ensures forall p :: p in stage.value.nodes && stage.value.nodes[p].Folder? ==> p in stage.value.closed
    {
      var nodes := stage.value.nodes;
      var left := nodes.Keys;
      while left != {}
        invariant left <= nodes.Keys && stage.Some? && stage.value.nodes == nodes
        invariant forall p :: p in nodes.Keys - left && nodes[p].Folder? ==> p in stage.value.closed
      {
        var p :| p in left;
        left := left - {p};
        if nodes[p].Folder? {
          stage := Some(stage.value.(closed := stage.value.closed + {p}));
        }
      }
      stage := Some(stage.value.(closed := stage.value.closed + {[]}));
    }

    /** All or nothing.  Extraction succeeds exactly when the archive is valid, the destination is absent,
        no entry is a directory of another and no step failed; then the destination is exactly the
        manifest's tree.  Otherwise nothing is left of the stage and the destination is untouched. */
    method Extract(archive: seq<Member>, m: Manifest, fault: nat) returns (ok: bool)
      requires ExactInventory(m) && stage == None
      modifies this
      ensures stage == None
      ensures ok <==> Valid(archive, m) && old(destination) == None && NoneInside(m) && fault >= |m.entries| + 2
      ensures !ok ==> destination == old(destination)
      ensures ok ==> destination.Some? && Extracted(destination.value, m) && Accepted(destination, m) && HoldsArchive(destination.value, archive)
    {
      ok := ValidateDistribution(archive, m);
      if !ok || destination.Some? {
        return false;
      }
      ok := ExtractValid(archive, m, fault);
    }

    method ExtractValid(archive: seq<Member>, m: Manifest, fault: nat) returns (ok: bool)
      requires ExactInventory(m) && stage == None && destination == None && Valid(archive, m)
      modifies this
      ensures stage == None && (ok <==> NoneInside(m) && fault >= |m.entries| + 2)
      ensures !ok ==> destination == None
      ensures ok ==> destination.Some? && Extracted(destination.value, m) && Accepted(destination, m) && HoldsArchive(destination.value, archive)
    {
      CleanExactly(m);
      FilledExactly(Items(m.entries));
      stage := Some(Tree(map[], {}));
      ok := Fill(archive, m, fault);
      if ok && fault > |m.entries| {
        Seal();
      }
      if !ok || fault < |m.entries| + 2 {
        RemoveStage();
        return false;
      }
      destination, stage := stage, None;
      ExtractedIsAccepted(destination.value, archive, m);
      ExtractedHoldsArchive(destination.value, archive, m);
    }
  }
}
