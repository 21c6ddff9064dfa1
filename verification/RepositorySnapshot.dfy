/** The snapshot archive: what deployment/repository_snapshot.py puts into it and what
    `validate_repository_snapshot_archive` of deployment/privileged_installer.py accepts.

    A path is the sequence of its components.  SHA-1 is a parameter; zlib is the constructor `Deflated`,
    which only its own output opens. */
module RepositorySnapshot {
  import opened Prelude
  import opened Decimals
  import opened ObjectStream
  import opened SnapshotConfig
  import opened StageTree

  datatype Raw = Plain(text: string) | Deflated(text: string)

  datatype Member = Member(path: Path, directory: bool, executable: bool, raw: Raw)

  datatype Entry = Entry(path: Path, directory: bool, executable: bool, digest: Option<Digest<Raw>>)

  datatype ObjectInfo = ObjectInfo(id: string, kind: string, size: int)

  datatype Manifest = Manifest(
    mainSha: string,
    sourcePath: Path,
    sourceDigest: Digest<Raw>,
    entries: seq<Entry>,
    objects: seq<ObjectInfo>)

  function EntryOf(m: Member): Entry {
    Entry(m.path, m.directory, m.executable, if m.directory then None else Some(Digest(m.raw)))
  }

  // ----- Loose objects -----------------------------------------------------------------------------

  predicate IsHex(s: string) {
    forall i :: 0 <= i < |s| ==> '0' <= s[i] <= '9' || 'a' <= s[i] <= 'f'
  }

  predicate IsObjectId(id: string) {
    |id| == 40 && IsHex(id)
  }

  function ObjectPath(id: string): Path
    requires |id| >= 2
  {
    [".git", "objects", id[..2], id[2..]]
  }

  /** `re_full_git_object_path`. */
  function ObjectIdOf(p: Path): Option<string> {
    if |p| == 4 && p[0] == ".git" && p[1] == "objects" && |p[2]| == 2 && |p[3]| == 38 && IsHex(p[2] + p[3])
    then Some(p[2] + p[3]) else None
  }

  /** The split path and the identifier determine each other. */
  lemma ObjectPathRoundTrip(p: Path, id: string)
    ensures ObjectIdOf(p) == Some(id) <==> IsObjectId(id) && p == ObjectPath(id)
  {
    if IsObjectId(id) {
      assert id[..2] + id[2..] == id;
    }
    if ObjectIdOf(p) == Some(id) {
      assert id[..2] == p[2] && id[2..] == p[3];
    }
  }

  /** What the validator reads from a member at an object path. */
  function ParseLoose(sha1: string -> string, raw: Raw, id: string): Option<ObjectInfo> {
    if raw.Plain? then None
    else
      var nul := Find(raw.text, '\0');
      if nul == |raw.text| then None
      else
        var header, content := raw.text[..nul], raw.text[nul + 1..];
        var space := Find(header, ' ');
        if space == |header| then None
        else
          var kind, size := header[..space], PyInt(header[space + 1..]);
          if size.None? || !ValidKind(kind) || size.value != |content| || sha1(raw.text) != id then None
          else Some(ObjectInfo(id, kind, size.value))
  }

  lemma {:induction false} SplitOnce(s: string, c: char)
    requires Find(s, c) < |s|
    ensures s == s[..Find(s, c)] + [c] + s[Find(s, c) + 1..]
  {
  }

  /** Whatever reads as a loose object is one: compressed, of one of the four kinds, with a header that names the
      kind and its own length, and with the identifier as its SHA-1. */
  lemma {:induction false} LooseIsSound(sha1: string -> string, raw: Raw, id: string) returns (size: string, content: string)
    requires ParseLoose(sha1, raw, id).Some?
    ensures var o := ParseLoose(sha1, raw, id).value;
            && raw.Deflated? && sha1(raw.text) == id == o.id
            && (o.kind == "blob" || o.kind == "tree" || o.kind == "commit" || o.kind == "tag")
            && raw.text == (o.kind + " " + size) + "\0" + content && '\0' !in o.kind + " " + size
            && PyInt(size) == Some(|content|) && o.size == |content|
  {
    var nul := Find(raw.text, '\0');
    SplitOnce(raw.text, '\0');
    var header := raw.text[..nul];
    content := raw.text[nul + 1..];
    SplitOnce(header, ' ');
    size := header[Find(header, ' ') + 1..];
  }

  lemma KindIsPlain(kind: string)
    requires ValidKind(kind)
    ensures ' ' !in kind && '\0' !in kind
  {
  }

  lemma FindSplit(a: string, c: char, b: string)
    requires c !in a
    ensures var s := a + ([c] + b); Find(s, c) == |a| && s[..|a|] == a && s[|a| + 1..] == b
  {
    var s := a + ([c] + b);
    FindIs(s, c, |a|);
  }

  /** A loose object written by the builder reads back with its own identifier, kind and size. */
  lemma LooseRoundTrip(sha1: string -> string, o: GitObject)
    requires Genuine(sha1, o)
    ensures ParseLoose(sha1, Deflated(Loose(o.kind, o.content)), o.id) == Some(ObjectInfo(o.id, o.kind, |o.content|))
  {
    KindIsPlain(o.kind);
    DecimalShape(|o.content|);
    PyIntOfDecimal(|o.content|);
    var text := Decimal(|o.content|);
    var header := o.kind + ([' '] + text);
    assert Loose(o.kind, o.content) == header + (['\0'] + o.content);
    assert '\0' !in text;
    assert '\0' !in header;
    FindSplit(header, '\0', o.content);
    FindSplit(o.kind, ' ', text);
  }

  // ----- What the validator accepts -----------------------------------------------------------------

  const HEAD: Path := [".git", "HEAD"]
  const CONFIG: Path := [".git", "config"]
  const MAIN_REF: Path := [".git", "refs", "heads", "main"]
  const EXCLUDE: Path := [".git", "info", "exclude"]
  const INDEX: Path := [".git", "index"]
  const ALTERNATES: Path := [".git", "objects", "info", "alternates"]
  const PACK: Path := [".git", "objects", "pack"]
  const HOOKS: Path := [".git", "hooks"]

  const INVENTORY: string := "SNAPSHOT_MANIFEST.json"
  const TEMPORARY: string := ".object-content"

  const HEAD_TEXT: string := "ref: refs/heads/main\n"

  predicate SafePath(p: Path) {
    && p != [] && p != [INVENTORY]
    && forall i :: 0 <= i < |p| ==> p[i] != "" && p[i] != "." && p[i] != ".."
  }

  predicate PlainText(s: string) {
    forall i :: 0 <= i < |s| ==> s[i] !in {'\0', '\r', '\n'}
  }

  /** The length of the path written with slashes. */
  function TextLength(p: Path): int {
    if p == [] then -1 else |p[|p| - 1]| + 1 + TextLength(p[..|p| - 1])
  }

  const MAX_PATH: int := 4095

  /** What a snapshot entry demands of its path: normalised, on one line, at most 4095 characters, and not
      the manifest itself. */
  predicate EntryPath(p: Path) {
    SafePath(p) && (forall i :: 0 <= i < |p| ==> PlainText(p[i])) && TextLength(p) <= MAX_PATH
  }

  function Slashed(p: Path): string {
    if p == [] then "" else if |p| == 1 then p[0] else Slashed(p[..|p| - 1]) + "/" + p[|p| - 1]
  }

  lemma {:induction false} TextLengthIs(p: Path)
    requires p != []
    ensures TextLength(p) == |Slashed(p)|
  {
    if |p| > 1 {
      TextLengthIs(p[..|p| - 1]);
    } else {
      assert TextLength(p[..0]) == -1;
    }
  }

  /** In full: no empty, `.` or `..` component, no control character that ends a line, at most 4095 characters
      written out, and not the manifest's own name. */
  lemma EntryPathMeans(p: Path)
    ensures EntryPath(p) <==>
              && p != [] && p != ["SNAPSHOT_MANIFEST.json"] && |Slashed(p)| <= 4095
              && forall i :: 0 <= i < |p| ==>
                   p[i] != "" && p[i] != "." && p[i] != ".." && forall j :: 0 <= j < |p[i]| ==> p[i][j] != '\0' && p[i][j] != '\r' && p[i][j] != '\n'
  {
    if p != [] {
      TextLengthIs(p);
    }
  }

  predicate DistinctMembers(archive: seq<Member>) {
    forall i, j :: 0 <= i < j < |archive| ==> archive[i].path != archive[j].path
  }

  /** Packed objects, alternates and hooks. */
  predicate ForeignGit(m: Member) {
    (!m.directory && Below(m.path, PACK)) || m.path == ALTERNATES || Below(m.path, HOOKS)
  }

  /** What reading a member yields: nothing for a directory. */
  function RawOf(m: Member): Raw {
    if m.directory then Plain("") else m.raw
  }

  /** The object that a member holds, if its path is an object path. */
  function ObjectIn(sha1: string -> string, m: Member): Option<ObjectInfo> {
    if ObjectIdOf(m.path).Some? then ParseLoose(sha1, RawOf(m), ObjectIdOf(m.path).value) else None
  }

  /** What the validator demands of each member as it reads it. */
  predicate Readable(sha1: string -> string, m: Member) {
    && EntryPath(m.path) && (m.directory ==> m.executable)
    && (ObjectIdOf(m.path).Some? ==> ObjectIn(sha1, m).Some?)
  }

  predicate MemberAccepted(sha1: string -> string, m: Member) {
    Readable(sha1, m) && !ForeignGit(m)
  }

  function ObjectsIn(sha1: string -> string, archive: seq<Member>): set<ObjectInfo> {
    set i | 0 <= i < |archive| && ObjectIn(sha1, archive[i]).Some? :: ObjectIn(sha1, archive[i]).value
  }

  predicate HasText(archive: seq<Member>, p: Path, raw: Raw) {
    exists i :: 0 <= i < |archive| && archive[i].path == p && RawOf(archive[i]) == raw
  }

  predicate HasSafeConfig(archive: seq<Member>) {
    exists i :: 0 <= i < |archive| && archive[i].path == CONFIG && SafeConfig(RawOf(archive[i]).text)
  }

  predicate BindsSource(archive: seq<Member>, m: Manifest) {
    exists i :: 0 <= i < |archive| && archive[i].path == m.sourcePath && EntryOf(archive[i]).digest == Some(m.sourceDigest)
  }

  predicate ListsEntries(archive: seq<Member>, entries: seq<Entry>) {
    |archive| == |entries| && forall i :: 0 <= i < |archive| ==> EntryOf(archive[i]) == entries[i]
  }

  /** `validate_repository_snapshot_archive` returns. */
  predicate Accepts(sha1: string -> string, archive: seq<Member>, m: Manifest) {
    && DistinctMembers(archive)
    && (forall i :: 0 <= i < |archive| ==> MemberAccepted(sha1, archive[i]))
    && ListsEntries(archive, m.entries)
    && ObjectsIn(sha1, archive) == (set x | x in m.objects)
    && BindsSource(archive, m)
    && HasText(archive, HEAD, Plain(HEAD_TEXT))
    && HasText(archive, MAIN_REF, Plain(m.mainSha + "\n"))
    && HasSafeConfig(archive)
  }

  /** The member is neither packed storage, nor an alternate, nor a hook, and a member at an object path is a loose
      object with that identifier. */
  ghost predicate IsProper(sha1: string -> string, x: Member) {
    && EntryPath(x.path) && (x.directory ==> x.executable)
    && !(!x.directory && |x.path| > 3 && x.path[..3] == [".git", "objects", "pack"])
    && x.path != [".git", "objects", "info", "alternates"]
    && !(|x.path| > 2 && x.path[..2] == [".git", "hooks"])
    && (|x.path| == 4 && x.path[..2] == [".git", "objects"] && |x.path[2]| == 2 && |x.path[3]| == 38 && IsHex(x.path[2]) && IsHex(x.path[3]) ==>
          !x.directory && x.raw.Deflated? && sha1(x.raw.text) == x.path[2] + x.path[3])
  }

  lemma HexPair(a: string, b: string)
    ensures IsHex(a + b) <==> IsHex(a) && IsHex(b)
  {
    if IsHex(a + b) {
      forall i | 0 <= i < |a| ensures '0' <= a[i] <= '9' || 'a' <= a[i] <= 'f' {
        assert (a + b)[i] == a[i];
      }
      forall i | 0 <= i < |b| ensures '0' <= b[i] <= '9' || 'a' <= b[i] <= 'f' {
        assert (a + b)[|a| + i] == b[i];
      }
    }
  }

  lemma {:induction false} AcceptedIsProper(sha1: string -> string, x: Member)
    requires MemberAccepted(sha1, x)
    ensures IsProper(sha1, x)
  {
    if |x.path| == 4 {
      HexPair(x.path[2], x.path[3]);
      assert x.path[..2] == [".git", "objects"] ==> x.path[0] == ".git" && x.path[1] == "objects" by {
        assert x.path[..2][0] == x.path[0] && x.path[..2][1] == x.path[1];
      }
    }
    if ObjectIdOf(x.path).Some? {
      var size, content := LooseIsSound(sha1, RawOf(x), ObjectIdOf(x.path).value);
    }
  }

  /** What acceptance guarantees of the members of an archive, whoever made it. */
  lemma {:induction false} AcceptedMembers(sha1: string -> string, archive: seq<Member>, m: Manifest)
    requires Accepts(sha1, archive, m)
    ensures forall x :: x in archive ==> IsProper(sha1, x)
    ensures forall i, j :: 0 <= i < j < |archive| ==> archive[i].path != archive[j].path
  {
    forall x | x in archive ensures IsProper(sha1, x) {
      AcceptedIsProper(sha1, x);
    }
  }

  lemma {:induction false} TextIsThere(archive: seq<Member>, p: Path, text: string)
    requires HasText(archive, p, Plain(text)) && text != ""
    ensures exists x :: x in archive && x.path == p && !x.directory && x.raw == Plain(text)
  {
    var i :| 0 <= i < |archive| && archive[i].path == p && RawOf(archive[i]) == Plain(text);
    assert archive[i] in archive && archive[i].raw == Plain(text);
  }

  /** And of its control files: main is what the manifest says, and the configuration is safe. */
  lemma {:induction false} AcceptedControls(sha1: string -> string, archive: seq<Member>, m: Manifest)
    requires Accepts(sha1, archive, m)
    ensures exists x :: x in archive && x.path == [".git", "HEAD"] && !x.directory && x.raw == Plain("ref: refs/heads/main\n")
    ensures exists x :: x in archive && x.path == [".git", "refs", "heads", "main"] && !x.directory && x.raw == Plain(m.mainSha + "\n")
    ensures exists x :: x in archive && x.path == [".git", "config"] && !x.directory && SafeConfig(x.raw.text)
  {
    TextIsThere(archive, HEAD, HEAD_TEXT);
    TextIsThere(archive, MAIN_REF, m.mainSha + "\n");
    ConfigIsThere(archive);
  }

  lemma {:induction false} ConfigIsThere(archive: seq<Member>)
    requires HasSafeConfig(archive)
    ensures exists x :: x in archive && x.path == CONFIG && !x.directory && SafeConfig(x.raw.text)
  {
    var i :| 0 <= i < |archive| && archive[i].path == CONFIG && SafeConfig(RawOf(archive[i]).text);
    assert archive[i] in archive && SafeConfig(archive[i].raw.text);
  }

  /** And of its manifest: it lists every member and object, and the source manifest that it binds is a member. */
  lemma {:induction false} AcceptedManifest(sha1: string -> string, archive: seq<Member>, m: Manifest)
    requires Accepts(sha1, archive, m)
    ensures exists x :: x in archive && x.path == m.sourcePath && !x.directory && Digest(x.raw) == m.sourceDigest
    ensures |m.entries| == |archive|
    ensures forall i :: 0 <= i < |archive| ==>
              m.entries[i] == Entry(archive[i].path, archive[i].directory, archive[i].executable,
                                    if archive[i].directory then None else Some(Digest(archive[i].raw)))
    ensures forall o :: o in m.objects <==> exists x :: x in archive && ObjectIn(sha1, x) == Some(o)
  {
    var i :| 0 <= i < |archive| && archive[i].path == m.sourcePath && EntryOf(archive[i]).digest == Some(m.sourceDigest);
    assert archive[i] in archive;
    assert forall o :: o in m.objects <==> o in ObjectsIn(sha1, archive);
  }

  // ----- What the builder stages -------------------------------------------------------------------

  datatype Tracked = Tracked(path: Path, executable: bool, blob: string)

  /** One exact commit: its reachable objects, its tracked files, the index that Git writes for it, and
      the source manifest that its active generation names, if that pointer is valid. */
  datatype Commit = Commit(
    mainSha: string, objects: seq<GitObject>, tracked: seq<Tracked>, index: string, sourcePath: Option<Path>)

  datatype Held = Held(executable: bool, raw: Raw)

  type Nodes = map<Path, Node<Held>>

  /** What the reader of Git's output has already checked. */
  predicate WellRead(sha1: string -> string, c: Commit) {
    && (forall i :: 0 <= i < |c.objects| ==> IsObjectId(c.objects[i].id) && Genuine(sha1, c.objects[i]))
    && (forall i :: 0 <= i < |c.tracked| ==> SafePath(c.tracked[i].path))
  }

  function ObjectItem(o: GitObject): Item<Held>
    requires IsObjectId(o.id)
  {
    Item(ObjectPath(o.id), Held(false, Deflated(Loose(o.kind, o.content))))
  }

  predicate Placed(o: GitObject, t: Tracked) {
    o.kind == "blob" && t.blob == o.id
  }

  function TrackedItem(o: GitObject, t: Tracked): Item<Held> {
    Item(t.path, Held(t.executable, Plain(o.content)))
  }

  /** The tracked files that hold one object. */
  function TrackedItems(o: GitObject, tracked: seq<Tracked>): seq<Item<Held>> {
    if tracked == [] then []
    else (if Placed(o, tracked[0]) then [TrackedItem(o, tracked[0])] else []) + TrackedItems(o, tracked[1..])
  }

  function ObjectItems(objects: seq<GitObject>, tracked: seq<Tracked>): seq<Item<Held>>
    requires forall i :: 0 <= i < |objects| ==> IsObjectId(objects[i].id)
  {
    if objects == [] then []
    else [ObjectItem(objects[0])] + TrackedItems(objects[0], tracked) + ObjectItems(objects[1..], tracked)
  }

  function ControlItems(c: Commit): seq<Item<Held>> {
    [ Item(CONFIG, Held(false, Plain(CONFIG_TEXT))),
      Item(HEAD, Held(false, Plain(HEAD_TEXT))),
      Item(MAIN_REF, Held(false, Plain(c.mainSha + "\n"))),
      Item(EXCLUDE, Held(false, Plain("/SNAPSHOT_MANIFEST.json\n"))),
      Item(INDEX, Held(false, Plain(c.index))) ]
  }

  /** Every file of the staged tree, in the order in which it is written. */
  function Staged(c: Commit): seq<Item<Held>>
    requires forall i :: 0 <= i < |c.objects| ==> IsObjectId(c.objects[i].id)
  {
    ObjectItems(c.objects, c.tracked) + ControlItems(c)
  }

  /** Every tracked blob is among the reachable objects. */
  predicate Reachable(objects: seq<GitObject>, tracked: seq<Tracked>) {
    forall k :: 0 <= k < |tracked| ==> exists i :: 0 <= i < |objects| && Placed(objects[i], tracked[k])
  }

  lemma {:induction false} InTrackedItems(o: GitObject, tracked: seq<Tracked>, x: Item<Held>)
    ensures x in TrackedItems(o, tracked) <==>
            exists k :: 0 <= k < |tracked| && Placed(o, tracked[k]) && x == TrackedItem(o, tracked[k])
    decreases |tracked|
  {
    if tracked != [] {
      InTrackedItems(o, tracked[1..], x);
      if k :| 0 <= k < |tracked[1..]| && Placed(o, tracked[1..][k]) && x == TrackedItem(o, tracked[1..][k]) {
        assert tracked[k + 1] == tracked[1..][k];
      }
      if k :| 0 <= k < |tracked| && Placed(o, tracked[k]) && x == TrackedItem(o, tracked[k]) {
        assert k > 0 ==> tracked[k] == tracked[1..][k - 1];
      }
    }
  }

  lemma {:induction false} InObjectItems(objects: seq<GitObject>, tracked: seq<Tracked>, x: Item<Held>)
    requires forall i :: 0 <= i < |objects| ==> IsObjectId(objects[i].id)
    ensures x in ObjectItems(objects, tracked) <==>
            exists i :: 0 <= i < |objects| && (x == ObjectItem(objects[i]) || x in TrackedItems(objects[i], tracked))
    decreases |objects|
  {
    if objects != [] {
      InObjectItems(objects[1..], tracked, x);
      if i :| 0 <= i < |objects[1..]| && (x == ObjectItem(objects[1..][i]) || x in TrackedItems(objects[1..][i], tracked)) {
        assert objects[i + 1] == objects[1..][i];
      }
      if i :| 0 <= i < |objects| && (x == ObjectItem(objects[i]) || x in TrackedItems(objects[i], tracked)) {
        assert i > 0 ==> objects[i] == objects[1..][i - 1];
      }
    }
  }

  // ----- The archive and the manifest of a staged tree ----------------------------------------------------

  function AsMember(p: Path, node: Node<Held>): Member {
    match node
    case Folder => Member(p, true, true, Plain(""))
    case File(held) => Member(p, false, held.executable, held.raw)
  }

  ghost predicate ListsTree(archive: seq<Member>, nodes: Nodes) {
    && DistinctMembers(archive)
    && (forall i :: 0 <= i < |archive| ==> archive[i].path in nodes && archive[i] == AsMember(archive[i].path, nodes[archive[i].path]))
    && (forall p :: p in nodes ==> AsMember(p, nodes[p]) in archive)
  }

  function InfoOf(o: GitObject): ObjectInfo {
    ObjectInfo(o.id, o.kind, |o.content|)
  }

  predicate ListsObjects(objects: seq<GitObject>, infos: seq<ObjectInfo>) {
    |infos| == |objects| && forall i :: 0 <= i < |objects| ==> infos[i] == InfoOf(objects[i])
  }

  /** Every tracked path and the directories above it can stand in the inventory. */
  predicate AllInventoried(c: Commit) {
    forall k :: 0 <= k < |c.tracked| ==> c.tracked[k].path != [] && c.tracked[k].path[0] != INVENTORY && EntryPath(c.tracked[k].path)
  }

  /** `build_repository_snapshot` wrote this archive and manifest from this staged tree. */
  ghost predicate Built(sha1: string -> string, c: Commit, nodes: Nodes, archive: seq<Member>, m: Manifest) {
    && WellRead(sha1, c) && Reachable(c.objects, c.tracked)
    && AllInventoried(c)
    && Holds(nodes, Staged(c)) && ListsTree(archive, nodes)
    && ListsEntries(archive, m.entries) && ListsObjects(c.objects, m.objects)
    && m.mainSha == c.mainSha && BindsSource(archive, m)
  }

  // ----- Which tracked paths the validator refuses --------------------------------------------------------

  /** A tracked path that would pass itself off as Git's own storage. */
  predicate Dangerous(p: Path) {
    || (|p| >= 4 && ObjectIdOf(p[..4]).Some?)
    || Below(p, PACK)
    || (|p| >= 4 && p[..4] == ALTERNATES)
    || Below(p, HOOKS)
  }

  /** A file and the directories above it are accepted. */
  predicate BranchAccepted(sha1: string -> string, x: Item<Held>) {
    && MemberAccepted(sha1, AsMember(x.path, File(x.value)))
    && forall k :: 0 < k < |x.path| ==> MemberAccepted(sha1, AsMember(x.path[..k], Folder))
  }

  lemma {:induction false} PrefixIsShorter(p: Path, k: nat)
    requires 0 < k <= |p|
    ensures TextLength(p[..k]) <= TextLength(p)
    decreases |p|
  {
    if k < |p| {
      PrefixIsShorter(p[..|p| - 1], k);
      assert p[..|p| - 1][..k] == p[..k];
    } else {
      assert p[..k] == p;
    }
  }

  lemma {:induction false} PrefixIsInventoried(p: Path, k: nat)
    requires EntryPath(p) && p[0] != INVENTORY && 0 < k <= |p|
    ensures EntryPath(p[..k])
  {
    PrefixIsShorter(p, k);
    assert k == 1 ==> p[..k][0] == p[0];
  }

  lemma {:induction false} HarmlessIsAccepted(sha1: string -> string, x: Item<Held>)
    requires EntryPath(x.path) && x.path[0] != INVENTORY && x.value.raw.Plain? && !Dangerous(x.path)
    ensures BranchAccepted(sha1, x)
  {
    var p := x.path;
    assert p[..|p|] == p;
    forall k | 0 < k < |p| ensures MemberAccepted(sha1, AsMember(p[..k], Folder)) {
      PrefixIsInventoried(p, k);
      assert k == 4 ==> p[..k] == p[..4];
      assert k >= 2 ==> p[..k][..2] == p[..2];
    }
  }

  lemma {:induction false} DangerousIsRefused(sha1: string -> string, x: Item<Held>)
    requires x.value.raw.Plain? && Dangerous(x.path)
    ensures !BranchAccepted(sha1, x)
  {
    var p := x.path;
    if |p| > 4 {
      var folder := AsMember(p[..4], Folder);
      assert ObjectIn(sha1, folder) == None;
    } else {
      assert |p| == 4 ==> p[..4] == p;
    }
  }

  lemma {:induction false} FourLong(a: string, b: string, c: string, d: string)
    ensures TextLength([a, b, c, d]) == |a| + |b| + |c| + |d| + 3
  {
    var p := [a, b, c, d];
    assert p[..3] == [a, b, c] && p[..3][..2] == [a, b] && p[..2][..1] == [a] && p[..1][..0] == [];
    assert TextLength([a]) == |a| && TextLength([a, b]) == |b| + 1 + TextLength([a]);
    assert [a, b, c][..2] == [a, b];
    assert TextLength([a, b, c]) == |c| + 1 + TextLength([a, b]);
  }

  lemma {:induction false} ObjectPathIsSafe(id: string)
    requires IsObjectId(id)
    ensures EntryPath(ObjectPath(id)) && ObjectPath(id)[0] != INVENTORY
  {
    assert id[..2][0] == id[0] && id[0] != '.';
    FourLong(".git", "objects", id[..2], id[2..]);
    assert PlainText(id[..2]) && PlainText(id[2..]) && PlainText(".git") && PlainText("objects");
  }

  lemma {:induction false} ObjectFoldersAreAccepted(sha1: string -> string, id: string, k: nat)
    requires IsObjectId(id) && 0 < k < 4
    ensures MemberAccepted(sha1, AsMember(ObjectPath(id)[..k], Folder))
  {
    var p := ObjectPath(id);
    ObjectPathIsSafe(id);
    PrefixIsInventoried(p, k);
    assert k >= 2 ==> p[..k][1] == "objects";
    assert HOOKS[1] != "objects";
  }

  lemma {:induction false} ObjectIsNotForeign(id: string, held: Held)
    requires IsObjectId(id)
    ensures !ForeignGit(AsMember(ObjectPath(id), File(held)))
  {
    var p := ObjectPath(id);
    assert p[..3][2] == p[2] && |p[2]| == 2 && p[..2][1] == p[1] == "objects";
    assert |PACK[2]| == 4 && |ALTERNATES[2]| == 4 && HOOKS[1] != "objects";
  }

  lemma {:induction false} ObjectIsRead(sha1: string -> string, o: GitObject)
    requires IsObjectId(o.id) && Genuine(sha1, o)
    ensures ObjectIn(sha1, AsMember(ObjectPath(o.id), File(ObjectItem(o).value))) == Some(InfoOf(o))
  {
    ObjectPathRoundTrip(ObjectPath(o.id), o.id);
    LooseRoundTrip(sha1, o);
  }

  lemma {:induction false} ObjectIsAccepted(sha1: string -> string, o: GitObject)
    requires IsObjectId(o.id) && Genuine(sha1, o)
    ensures BranchAccepted(sha1, ObjectItem(o))
  {
    ObjectPathIsSafe(o.id);
    ObjectIsNotForeign(o.id, ObjectItem(o).value);
    ObjectIsRead(sha1, o);
    forall k | 0 < k < 4 ensures MemberAccepted(sha1, AsMember(ObjectPath(o.id)[..k], Folder)) {
      ObjectFoldersAreAccepted(sha1, o.id, k);
    }
  }

  lemma {:induction false} ShortPathIsInventoried(p: Path)
    requires SafePath(p) && |p| <= 4 && forall i :: 0 <= i < |p| ==> PlainText(p[i]) && |p[i]| <= 40
    ensures EntryPath(p)
  {
    var long := p + seq(4 - |p|, _ => "");
    FourLong(long[0], long[1], long[2], long[3]);
    assert long == [long[0], long[1], long[2], long[3]];
    PrefixIsShorter(long, |p|);
    assert long[..|p|] == p;
  }

  lemma {:induction false} ControlIsHarmless(c: Commit, i: nat)
    requires i < |ControlItems(c)|
    ensures var p := ControlItems(c)[i].path; EntryPath(p) && p[0] != INVENTORY && !Dangerous(p)
  {
    var p := ControlItems(c)[i].path;
    assert p[0] == ".git" && p[1] != "objects" && p[1] != "hooks";
    assert PlainText(".git") && PlainText("HEAD") && PlainText("config") && PlainText("index");
    assert PlainText("refs") && PlainText("heads") && PlainText("main") && PlainText("info") && PlainText("exclude");
    ShortPathIsInventoried(p);
  }

  // ----- The staged tree, file by file --------------------------------------------------------------------

  /** A staged file is an object, a tracked file or one of Git's controls. */
  lemma {:induction false} StagedKinds(sha1: string -> string, c: Commit, x: Item<Held>)
    requires WellRead(sha1, c) && x in Staged(c)
    ensures || (exists i :: 0 <= i < |c.objects| && x == ObjectItem(c.objects[i]))
            || (x.value.raw.Plain? && exists k :: 0 <= k < |c.tracked| && x.path == c.tracked[k].path)
            || x in ControlItems(c)
  {
    InObjectItems(c.objects, c.tracked, x);
    if x !in ControlItems(c) {
      var i :| 0 <= i < |c.objects| && (x == ObjectItem(c.objects[i]) || x in TrackedItems(c.objects[i], c.tracked));
      if x != ObjectItem(c.objects[i]) {
        InTrackedItems(c.objects[i], c.tracked, x);
      }
    }
  }

  lemma {:induction false} HoldsBlob(objects: seq<GitObject>, tracked: seq<Tracked>, k: nat) returns (i: nat)
    requires Reachable(objects, tracked) && k < |tracked|
    ensures i < |objects| && Placed(objects[i], tracked[k])
  {
    var t := tracked[k];
    i :| 0 <= i < |objects| && Placed(objects[i], t);
  }

  lemma {:induction false} TrackedIsStaged(sha1: string -> string, c: Commit, k: nat) returns (x: Item<Held>)
    requires WellRead(sha1, c) && Reachable(c.objects, c.tracked) && k < |c.tracked|
    ensures x in Staged(c) && x.path == c.tracked[k].path && x.value.raw.Plain?
  {
    var i := HoldsBlob(c.objects, c.tracked, k);
    x := TrackedItem(c.objects[i], c.tracked[k]);
    InTrackedItems(c.objects[i], c.tracked, x);
    InObjectItems(c.objects, c.tracked, x);
  }

  lemma {:induction false} ObjectIsStaged(sha1: string -> string, c: Commit, i: nat)
    requires WellRead(sha1, c) && i < |c.objects|
    ensures ObjectItem(c.objects[i]) in Staged(c)
  {
    InObjectItems(c.objects, c.tracked, ObjectItem(c.objects[i]));
  }

  /** No tracked file passes itself off as Git's own storage. */
  predicate NoneDangerous(c: Commit) {
    forall k :: 0 <= k < |c.tracked| ==> !Dangerous(c.tracked[k].path)
  }

  lemma {:induction false} StagedIsAccepted(sha1: string -> string, c: Commit, x: Item<Held>)
    requires WellRead(sha1, c) && x in Staged(c) && NoneDangerous(c) && AllInventoried(c)
    ensures BranchAccepted(sha1, x)
  {
    StagedKinds(sha1, c, x);
    if i :| 0 <= i < |c.objects| && x == ObjectItem(c.objects[i]) {
      ObjectIsAccepted(sha1, c.objects[i]);
    } else if x in ControlItems(c) {
      var i :| 0 <= i < |ControlItems(c)| && ControlItems(c)[i] == x;
      ControlIsHarmless(c, i);
      HarmlessIsAccepted(sha1, x);
    } else {
      HarmlessIsAccepted(sha1, x);
    }
  }

  /** The archive's members are accepted exactly when every staged file is, with the directories above it. */
  lemma {:induction false} MembersAcceptedExactly(sha1: string -> string, archive: seq<Member>, nodes: Nodes, items: seq<Item<Held>>)
    requires ListsTree(archive, nodes) && Holds(nodes, items) && forall x :: x in items ==> x.path != []
    ensures (forall i :: 0 <= i < |archive| ==> MemberAccepted(sha1, archive[i]))
            <==> forall x :: x in items ==> BranchAccepted(sha1, x)
  {
    if forall i :: 0 <= i < |archive| ==> MemberAccepted(sha1, archive[i]) {
      forall x | x in items ensures BranchAccepted(sha1, x) {
        BranchFromMembers(sha1, archive, nodes, items, x);
      }
    }
    if forall x :: x in items ==> BranchAccepted(sha1, x) {
      forall i | 0 <= i < |archive| ensures MemberAccepted(sha1, archive[i]) {
        MemberFromBranches(sha1, nodes, items, archive[i].path);
      }
    }
  }

  lemma {:induction false} BranchFromMembers(
      sha1: string -> string, archive: seq<Member>, nodes: Nodes, items: seq<Item<Held>>, x: Item<Held>)
    requires ListsTree(archive, nodes) && Holds(nodes, items) && x in items
    requires forall i :: 0 <= i < |archive| ==> MemberAccepted(sha1, archive[i])
    ensures BranchAccepted(sha1, x)
  {
    var j :| 0 <= j < |items| && items[j] == x;
    assert AsMember(x.path, nodes[x.path]) in archive;
    forall k | 0 < k < |x.path| ensures MemberAccepted(sha1, AsMember(x.path[..k], Folder)) {
      assert Below(items[j].path, x.path[..k]);
      assert IsFolder(items, x.path[..k]);
      assert AsMember(x.path[..k], Folder) in archive;
    }
  }

  lemma {:induction false} MemberFromBranches(sha1: string -> string, nodes: Nodes, items: seq<Item<Held>>, p: Path)
    requires Holds(nodes, items) && p in nodes
    requires forall x :: x in items ==> BranchAccepted(sha1, x)
    requires forall x :: x in items ==> x.path != []
    ensures MemberAccepted(sha1, AsMember(p, nodes[p]))
  {
    if nodes[p].File? {
      var x := Item(p, nodes[p].value);
      assert x in items;
      assert BranchAccepted(sha1, x);
    } else {
      assert IsFolder(items, p);
      var i :| 0 <= i < |items| && Below(items[i].path, p);
      assert BranchAccepted(sha1, items[i]);
      assert items[i].path[..|p|] == p;
    }
  }

  lemma {:induction false} StagedPathsAreProper(sha1: string -> string, c: Commit)
    requires WellRead(sha1, c)
    ensures forall x :: x in Staged(c) ==> x.path != []
  {
    forall x | x in Staged(c) ensures x.path != [] {
      StagedKinds(sha1, c, x);
    }
  }

  lemma {:induction false} MembersAcceptedWhenHarmless(
      sha1: string -> string, c: Commit, nodes: Nodes, archive: seq<Member>, m: Manifest)
    requires Built(sha1, c, nodes, archive, m)
    ensures (forall i :: 0 <= i < |archive| ==> MemberAccepted(sha1, archive[i])) <==> NoneDangerous(c)
  {
    StagedPathsAreProper(sha1, c);
    MembersAcceptedExactly(sha1, archive, nodes, Staged(c));
    if NoneDangerous(c) {
      forall x | x in Staged(c) ensures BranchAccepted(sha1, x) {
        StagedIsAccepted(sha1, c, x);
      }
    } else {
      var k :| 0 <= k < |c.tracked| && Dangerous(c.tracked[k].path);
      var x := TrackedIsStaged(sha1, c, k);
      DangerousIsRefused(sha1, x);
    }
  }

  lemma {:induction false} StagedIsListed(
      sha1: string -> string, c: Commit, nodes: Nodes, archive: seq<Member>, m: Manifest, x: Item<Held>) returns (i: nat)
    requires Built(sha1, c, nodes, archive, m) && x in Staged(c)
    ensures i < |archive| && archive[i] == AsMember(x.path, File(x.value))
  {
    var j :| 0 <= j < |Staged(c)| && Staged(c)[j] == x;
    assert nodes[Staged(c)[j].path] == File(x.value);
    assert AsMember(x.path, nodes[x.path]) in archive;
    i :| 0 <= i < |archive| && archive[i] == AsMember(x.path, File(x.value));
  }

  /** The objects that the validator finds are the commit's objects. */
  lemma {:induction false} ObjectsAreFound(sha1: string -> string, c: Commit, nodes: Nodes, archive: seq<Member>, m: Manifest)
    requires Built(sha1, c, nodes, archive, m)
    ensures ObjectsIn(sha1, archive) == (set x | x in m.objects)
  {
    forall info | info in m.objects ensures info in ObjectsIn(sha1, archive) {
      ObjectIsFound(sha1, c, nodes, archive, m, info);
    }
    forall info | info in ObjectsIn(sha1, archive) ensures info in m.objects {
      var i :| 0 <= i < |archive| && ObjectIn(sha1, archive[i]) == Some(info);
      FoundIsObject(sha1, c, nodes, archive[i].path, info);
      var k :| 0 <= k < |c.objects| && InfoOf(c.objects[k]) == info;
      assert m.objects[k] == info;
    }
  }

  lemma {:induction false} ObjectIsFound(
      sha1: string -> string, c: Commit, nodes: Nodes, archive: seq<Member>, m: Manifest, info: ObjectInfo)
    requires Built(sha1, c, nodes, archive, m) && info in m.objects
    ensures info in ObjectsIn(sha1, archive)
  {
    var k :| 0 <= k < |m.objects| && m.objects[k] == info;
    ObjectIsStaged(sha1, c, k);
    ObjectIsRead(sha1, c.objects[k]);
    var i := StagedIsListed(sha1, c, nodes, archive, m, ObjectItem(c.objects[k]));
    assert ObjectIn(sha1, archive[i]) == Some(info);
  }

  lemma {:induction false} FoundIsObject(sha1: string -> string, c: Commit, nodes: Nodes, p: Path, info: ObjectInfo)
    requires WellRead(sha1, c) && Holds(nodes, Staged(c)) && p in nodes
    requires ObjectIn(sha1, AsMember(p, nodes[p])) == Some(info)
    ensures exists k :: 0 <= k < |c.objects| && InfoOf(c.objects[k]) == info
  {
    assert nodes[p].File?;
    var x := Item(p, nodes[p].value);
    assert x in Staged(c);
    StagedKinds(sha1, c, x);
    assert x.value.raw.Deflated?;
    var k :| 0 <= k < |c.objects| && x == ObjectItem(c.objects[k]);
    ObjectIsRead(sha1, c.objects[k]);
  }

  lemma {:induction false} ControlsAreBound(sha1: string -> string, c: Commit, nodes: Nodes, archive: seq<Member>, m: Manifest)
    requires Built(sha1, c, nodes, archive, m)
    ensures HasText(archive, HEAD, Plain(HEAD_TEXT)) && HasText(archive, MAIN_REF, Plain(m.mainSha + "\n")) && HasSafeConfig(archive)
  {
    var controls := ControlItems(c);
    forall k | 0 <= k < |controls| ensures HasText(archive, controls[k].path, controls[k].value.raw) {
      assert controls[k] in Staged(c);
      var i := StagedIsListed(sha1, c, nodes, archive, m, controls[k]);
    }
    ConfigTextIsSafe();
    assert HasText(archive, controls[0].path, controls[0].value.raw);
    assert HasText(archive, controls[1].path, controls[1].value.raw);
    assert HasText(archive, controls[2].path, controls[2].value.raw);
  }

  // ----- What the archive holds, in full ------------------------------------------------------------------

  /** A tracked file is archived under its own path, with its own mode bit and the content of its blob. */
  ghost predicate HoldsTracked(c: Commit, archive: seq<Member>, k: nat)
    requires k < |c.tracked|
  {
    exists i :: 0 <= i < |c.objects| && c.objects[i].kind == "blob" && c.objects[i].id == c.tracked[k].blob
                && Member(c.tracked[k].path, false, c.tracked[k].executable, Plain(c.objects[i].content)) in archive
  }

  /** An object is archived under its identifier, deflated, with Git's own header. */
  ghost predicate HoldsObject(archive: seq<Member>, o: GitObject) {
    |o.id| == 40
    && Member([".git", "objects", o.id[..2], o.id[2..]], false, false,
              Deflated(o.kind + " " + Decimal(|o.content|) + "\0" + o.content)) in archive
  }

  ghost predicate HoldsControls(c: Commit, archive: seq<Member>) {
    && Member([".git", "config"], false, false, Plain(CONFIG_TEXT)) in archive
    && Member([".git", "HEAD"], false, false, Plain("ref: refs/heads/main\n")) in archive
    && Member([".git", "refs", "heads", "main"], false, false, Plain(c.mainSha + "\n")) in archive
    && Member([".git", "info", "exclude"], false, false, Plain("/SNAPSHOT_MANIFEST.json\n")) in archive
    && Member([".git", "index"], false, false, Plain(c.index)) in archive
  }

  /** A file of the archive is tracked, or is Git's own: a control file or an object of the commit. */
  ghost predicate IsExpected(c: Commit, x: Member) {
    || (exists k :: 0 <= k < |c.tracked| && c.tracked[k].path == x.path)
    || (exists i :: 0 <= i < |c.objects| && |c.objects[i].id| == 40
                    && x.path == [".git", "objects", c.objects[i].id[..2], c.objects[i].id[2..]])
    || x.path == [".git", "config"] || x.path == [".git", "HEAD"] || x.path == [".git", "refs", "heads", "main"]
    || x.path == [".git", "info", "exclude"] || x.path == [".git", "index"]
  }

  /** A directory of the archive stands above one of its files. */
  ghost predicate IsAbove(archive: seq<Member>, x: Member) {
    exists j :: 0 <= j < |archive| && !archive[j].directory && |archive[j].path| > |x.path| && archive[j].path[..|x.path|] == x.path
  }

  /** The archive holds every tracked file, every object and the controls, once each, and nothing else but the
      directories above them. */
  ghost predicate HoldsCommit(c: Commit, archive: seq<Member>) {
    && (forall k :: 0 <= k < |c.tracked| ==> HoldsTracked(c, archive, k))
    && (forall i :: 0 <= i < |c.objects| ==> HoldsObject(archive, c.objects[i]))
    && HoldsControls(c, archive)
    && (forall x :: x in archive && !x.directory ==> IsExpected(c, x))
    && (forall x :: x in archive && x.directory ==> x.executable && IsAbove(archive, x))
    && (forall i, j :: 0 <= i < j < |archive| ==> archive[i].path != archive[j].path)
  }

  /** The manifest lists each member with its digest, each object with its size, and the digest of the source
      manifest. */
  ghost predicate Describes(c: Commit, archive: seq<Member>, m: Manifest) {
    && m.mainSha == c.mainSha && Some(m.sourcePath) == c.sourcePath
    && |m.entries| == |archive|
    && (forall i :: 0 <= i < |archive| ==>
          m.entries[i] == Entry(archive[i].path, archive[i].directory, archive[i].executable,
                                if archive[i].directory then None else Some(Digest(archive[i].raw))))
    && |m.objects| == |c.objects|
    && (forall i :: 0 <= i < |c.objects| ==> m.objects[i] == ObjectInfo(c.objects[i].id, c.objects[i].kind, |c.objects[i].content|))
    && (exists x :: x in archive && x.path == m.sourcePath && !x.directory && m.sourceDigest == Digest(x.raw))
  }

  lemma {:induction false} ArchiveHoldsTracked(sha1: string -> string, c: Commit, nodes: Nodes, archive: seq<Member>, m: Manifest, k: nat)
    requires Built(sha1, c, nodes, archive, m) && k < |c.tracked|
    ensures HoldsTracked(c, archive, k)
  {
    var i := HoldsBlob(c.objects, c.tracked, k);
    var x := TrackedItem(c.objects[i], c.tracked[k]);
    InTrackedItems(c.objects[i], c.tracked, x);
    InObjectItems(c.objects, c.tracked, x);
    var j := StagedIsListed(sha1, c, nodes, archive, m, x);
    assert archive[j] == Member(c.tracked[k].path, false, c.tracked[k].executable, Plain(c.objects[i].content));
  }

  lemma {:induction false} ArchiveHoldsObject(sha1: string -> string, c: Commit, nodes: Nodes, archive: seq<Member>, m: Manifest, i: nat)
    requires Built(sha1, c, nodes, archive, m) && i < |c.objects|
    ensures HoldsObject(archive, c.objects[i])
  {
    ObjectIsStaged(sha1, c, i);
    var j := StagedIsListed(sha1, c, nodes, archive, m, ObjectItem(c.objects[i]));
  }

  lemma {:induction false} ArchiveHoldsControls(sha1: string -> string, c: Commit, nodes: Nodes, archive: seq<Member>, m: Manifest)
    requires Built(sha1, c, nodes, archive, m)
    ensures HoldsControls(c, archive)
  {
    var controls := ControlItems(c);
    forall k | 0 <= k < |controls| ensures AsMember(controls[k].path, File(controls[k].value)) in archive {
      assert controls[k] in Staged(c);
      var i := StagedIsListed(sha1, c, nodes, archive, m, controls[k]);
    }
    assert AsMember(controls[0].path, File(controls[0].value)) in archive;
    assert AsMember(controls[1].path, File(controls[1].value)) in archive;
    assert AsMember(controls[2].path, File(controls[2].value)) in archive;
    assert AsMember(controls[3].path, File(controls[3].value)) in archive;
    assert AsMember(controls[4].path, File(controls[4].value)) in archive;
  }

  lemma {:induction false} ArchivedFileIsExpected(sha1: string -> string, c: Commit, nodes: Nodes, archive: seq<Member>, m: Manifest, x: Member)
    requires Built(sha1, c, nodes, archive, m) && x in archive && !x.directory
    ensures IsExpected(c, x)
  {
    var p := x.path;
    var i :| 0 <= i < |archive| && archive[i] == x;
    assert nodes[p].File?;
    StagedKinds(sha1, c, Item(p, nodes[p].value));
    if Item(p, nodes[p].value) in ControlItems(c) {
      ControlIsExpected(c, Item(p, nodes[p].value), x);
    }
  }

  lemma {:induction false} ControlIsExpected(c: Commit, item: Item<Held>, x: Member)
    requires item in ControlItems(c) && x.path == item.path
    ensures IsExpected(c, x)
  {
    var k :| 0 <= k < |ControlItems(c)| && ControlItems(c)[k] == item;
  }

  lemma {:induction false} ArchivedFolderIsAbove(sha1: string -> string, c: Commit, nodes: Nodes, archive: seq<Member>, m: Manifest, x: Member)
    requires Built(sha1, c, nodes, archive, m) && x in archive && x.directory
    ensures x.executable && IsAbove(archive, x)
  {
    var i :| 0 <= i < |archive| && archive[i] == x;
    assert nodes[x.path].Folder? && IsFolder(Staged(c), x.path);
    var k :| 0 <= k < |Staged(c)| && Below(Staged(c)[k].path, x.path);
    var j := StagedIsListed(sha1, c, nodes, archive, m, Staged(c)[k]);
    assert archive[j].path == Staged(c)[k].path;
  }

  lemma {:induction false} BuiltHoldsCommit(sha1: string -> string, c: Commit, nodes: Nodes, archive: seq<Member>, m: Manifest)
    requires Built(sha1, c, nodes, archive, m)
    ensures HoldsCommit(c, archive)
  {
    forall k | 0 <= k < |c.tracked| ensures HoldsTracked(c, archive, k) {
      ArchiveHoldsTracked(sha1, c, nodes, archive, m, k);
    }
    forall i | 0 <= i < |c.objects| ensures HoldsObject(archive, c.objects[i]) {
      ArchiveHoldsObject(sha1, c, nodes, archive, m, i);
    }
    ArchiveHoldsControls(sha1, c, nodes, archive, m);
    forall x | x in archive && !x.directory ensures IsExpected(c, x) {
      ArchivedFileIsExpected(sha1, c, nodes, archive, m, x);
    }
    forall x | x in archive && x.directory ensures x.executable && IsAbove(archive, x) {
      ArchivedFolderIsAbove(sha1, c, nodes, archive, m, x);
    }
  }

  lemma {:induction false} BuiltIsDescribed(sha1: string -> string, c: Commit, nodes: Nodes, archive: seq<Member>, m: Manifest)
    requires Built(sha1, c, nodes, archive, m) && Some(m.sourcePath) == c.sourcePath
    ensures Describes(c, archive, m)
  {
    var i :| 0 <= i < |archive| && archive[i].path == m.sourcePath && EntryOf(archive[i]).digest == Some(m.sourceDigest);
    assert archive[i] in archive && !archive[i].directory;
  }

  /** The independent validator accepts what the builder wrote exactly when no tracked file passes itself
      off as Git's own storage. */
  lemma {:induction false} SnapshotAcceptedExactly(
      sha1: string -> string, c: Commit, nodes: Nodes, archive: seq<Member>, m: Manifest)
    requires Built(sha1, c, nodes, archive, m)
    ensures Accepts(sha1, archive, m) <==> NoneDangerous(c)
  {
    MembersAcceptedWhenHarmless(sha1, c, nodes, archive, m);
    ObjectsAreFound(sha1, c, nodes, archive, m);
    ControlsAreBound(sha1, c, nodes, archive, m);
  }

  /** In particular, a commit that tracks nothing under `.git` always passes. */
  lemma {:induction false} PlainCommitIsAccepted(
      sha1: string -> string, c: Commit, nodes: Nodes, archive: seq<Member>, m: Manifest)
    requires Built(sha1, c, nodes, archive, m)
    requires forall k :: 0 <= k < |c.tracked| ==> c.tracked[k].path[0] != ".git"
    ensures Accepts(sha1, archive, m)
  {
    forall k | 0 <= k < |c.tracked| ensures !Dangerous(c.tracked[k].path) {
      DangerousIsUnderGit(c.tracked[k].path);
    }
    SnapshotAcceptedExactly(sha1, c, nodes, archive, m);
  }

  lemma {:induction false} DangerousIsUnderGit(p: Path)
    ensures Dangerous(p) ==> p != [] && p[0] == ".git"
  {
    assert forall n :: 0 < n <= |p| ==> p[..n][0] == p[0];
    assert PACK[0] == ALTERNATES[0] == HOOKS[0] == ".git";
  }

  // ----- Git's own check ------------------------------------------------------------------------------------

  predicate HasGitComponent(p: Path) {
    exists i :: 0 <= i < |p| && p[i] == ".git"
  }

  /** Git's path check, which `git read-tree` applies to every tracked path, may refuse more than this, but
      it never accepts a `.git` component. */
  ghost predicate GitRefusesItsOwn(indexes: Path -> bool) {
    forall p :: HasGitComponent(p) ==> !indexes(p)
  }

  predicate Indexed(indexes: Path -> bool, c: Commit) {
    forall k :: 0 <= k < |c.tracked| ==> indexes(c.tracked[k].path)
  }

  /** So whatever Git could index and the builder wrote, the validator accepts. */
  lemma {:induction false} BuiltIsAccepted(
      sha1: string -> string, indexes: Path -> bool, c: Commit, nodes: Nodes, archive: seq<Member>, m: Manifest)
    requires Built(sha1, c, nodes, archive, m) && GitRefusesItsOwn(indexes) && Indexed(indexes, c)
    ensures Accepts(sha1, archive, m)
  {
    forall k | 0 <= k < |c.tracked| ensures c.tracked[k].path[0] != ".git" {
      var p := c.tracked[k].path;
      assert p[0] == ".git" ==> HasGitComponent(p);
    }
    PlainCommitIsAccepted(sha1, c, nodes, archive, m);
  }
}
