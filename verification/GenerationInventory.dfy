/** The generation that deployment/runtime_refresh.py builds from a candidate tree: every tracked file
    under `repository/`, every Python module of the runtime packages again under `site-packages/`. */
module GenerationInventory {
  import opened Prelude
  import opened Text

  datatype Mapping = Mapping(source: string, target: string)

  /** PROJECT_SOURCE_MAPPINGS of deployment/runtime_distribution.py. */
  const MAPPINGS: seq<Mapping> := [
    Mapping("tcfactory/", "tcfactory/"),
    Mapping("deployment/", "deployment/"),
    Mapping("scripts/", "scripts/"),
    Mapping("verifier/src/" + "traincapsule_verifier/", "traincapsule_verifier/"),
    Mapping("canary_runner/src/" + "traincapsule_canary_runner/", "traincapsule_canary_runner/"),
    Mapping("packages/traincapsule-" + ("core/src/" + "traincapsule_core/"), "traincapsule_core/"),
    Mapping("packages/traincapsule-" + ("ingest-pytorch/src/" + "traincapsule_ingest_pytorch/"), "traincapsule_ingest_pytorch/"),
    Mapping("packages/traincapsule-" + ("qualify/src/" + "traincapsule_qualify/"), "traincapsule_qualify/"),
    Mapping("packages/traincapsule-" + ("cli/src/" + "traincapsule_cli/"), "traincapsule_cli/")]

  const SITE_PACKAGES: string := "site-packages/"
  const REPOSITORY: string := "repository/"

  predicate EndsWith(s: string, suffix: string) {
    |s| >= |suffix| && s[|s| - |suffix|..] == suffix
  }

  /** The first mapping from `i` on whose source prefix matches. */
  function FirstMatch(source: string, i: nat): (r: Option<nat>)
    requires i <= |MAPPINGS|
    ensures r.Some? ==> r.value < |MAPPINGS| && MAPPINGS[r.value].source <= source
    ensures r.None? ==> forall j :: i <= j < |MAPPINGS| ==> !(MAPPINGS[j].source <= source)
    decreases |MAPPINGS| - i
  {
    if i == |MAPPINGS| then None
    else if MAPPINGS[i].source <= source then Some(i)
    else FirstMatch(source, i + 1)
  }

  /** `_module_target`. */
  function ModuleTarget(source: string): Option<string> {
    if !EndsWith(source, ".py") then None
    else
      match FirstMatch(source, 0)
      case None => None
      case Some(i) => Some(SITE_PACKAGES + MAPPINGS[i].target + source[|MAPPINGS[i].source|..])
  }

  /** Text that differs from a prefix does not start with it. */
  lemma Apart(prefix: string, s: string, k: nat)
    requires k < |prefix| && k < |s| && prefix[k] != s[k]
    ensures !(prefix <= s)
  {
  }

  /** Letters that tell the source prefixes apart. */
  lemma FirstLetter(i: nat)
    requires i < |MAPPINGS|
    ensures |MAPPINGS[i].source| > 0 && MAPPINGS[i].source[0] == ['t', 'd', 's', 'v', 'c', 'p', 'p', 'p', 'p'][i]
  {
    assert MAPPINGS[0].source[0] == 't' && MAPPINGS[1].source[0] == 'd' && MAPPINGS[2].source[0] == 's';
    assert MAPPINGS[3].source[0] == 'v' && MAPPINGS[4].source[0] == 'c';
    assert MAPPINGS[5].source[0] == 'p' && MAPPINGS[6].source[0] == 'p' && MAPPINGS[7].source[0] == 'p';
  }

  lemma PackageLetter(i: nat)
    requires 5 <= i < |MAPPINGS|
    ensures |MAPPINGS[i].source| > 23 && MAPPINGS[i].source[23] == ['o', 'n', 'u', 'l'][i - 5]
  {
    assert |"packages/traincapsule-"| == 22;
    assert MAPPINGS[5].source[23] == 'o' && MAPPINGS[6].source[23] == 'n';
    assert MAPPINGS[7].source[23] == 'u' && MAPPINGS[8].source[23] == 'l';
  }

  lemma {:induction false} OneSource(source: string, i: nat, j: nat)
    requires i < |MAPPINGS| && j < |MAPPINGS| && i != j && MAPPINGS[i].source <= source
    ensures !(MAPPINGS[j].source <= source)
  {
    if i >= 5 && j >= 5 {
      PackageLetter(i);
      PackageLetter(j);
      Apart(MAPPINGS[j].source, source, 23);
    } else {
      FirstLetter(i);
      FirstLetter(j);
      Apart(MAPPINGS[j].source, source, 0);
    }
  }

  /** A package keeps its own name: the target is the last directory of the source. */
  lemma PackageKeepsName(i: nat)
    requires i < |MAPPINGS|
    ensures EndsWith(MAPPINGS[i].source, MAPPINGS[i].target)
  {
    if i < 3 {
      assert MAPPINGS[i].source == MAPPINGS[i].target;
    } else if i == 3 {
      EndsInLast("", "verifier/src/", MAPPINGS[3].target);
    } else if i == 4 {
      EndsInLast("", "canary_runner/src/", MAPPINGS[4].target);
    } else if i == 5 {
      EndsInLast("packages/traincapsule-", "core/src/", MAPPINGS[5].target);
    } else if i == 6 {
      EndsInLast("packages/traincapsule-", "ingest-pytorch/src/", MAPPINGS[6].target);
    } else if i == 7 {
      EndsInLast("packages/traincapsule-", "qualify/src/", MAPPINGS[7].target);
    } else {
      EndsInLast("packages/traincapsule-", "cli/src/", MAPPINGS[8].target);
    }
  }

  lemma EndsInLast(a: string, b: string, c: string)
    ensures EndsWith(b + c, c) && EndsWith(a + (b + c), c)
  {
  }

  /** A Python module of a mapped package goes to the package's target directory under `site-packages/`, with the
      rest of its path; nothing else goes there. */
  lemma ModuleTargetExactly(source: string, i: nat)
    requires i < |MAPPINGS|
    ensures MAPPINGS[i].source <= source && EndsWith(source, ".py") ==>
              ModuleTarget(source) == Some("site-packages/" + MAPPINGS[i].target + source[|MAPPINGS[i].source|..])
    ensures ModuleTarget(source).Some? <==> EndsWith(source, ".py") && exists j :: 0 <= j < |MAPPINGS| && MAPPINGS[j].source <= source
  {
    if MAPPINGS[i].source <= source && EndsWith(source, ".py") {
      var j := FirstMatch(source, 0).value;
      if j != i {
        OneSource(source, i, j);
      }
    }
  }

  lemma OnlyLastIsSlash(i: nat)
    requires i < |MAPPINGS|
    ensures var t := MAPPINGS[i].target;
            |t| > 0 && t[|t| - 1] == '/' && forall k :: 0 <= k < |t| - 1 ==> t[k] != '/'
  {
  }

  lemma LengthsDiffer(i: nat, j: nat)
    requires i < |MAPPINGS| && j < |MAPPINGS| && |MAPPINGS[i].target| == |MAPPINGS[j].target|
    ensures i == j
  {
  }

  /** No target prefix is a prefix of another. */
  lemma TargetsArePrefixFree(i: nat, j: nat)
    requires i < |MAPPINGS| && j < |MAPPINGS| && MAPPINGS[i].target <= MAPPINGS[j].target
    ensures i == j
  {
    OnlyLastIsSlash(i);
    OnlyLastIsSlash(j);
    var a, b := MAPPINGS[i].target, MAPPINGS[j].target;
    assert b[|a| - 1] == a[|a| - 1];
    LengthsDiffer(i, j);
  }

  /** A target prefix and what follows it determine each other. */
  lemma {:induction false} TargetsSplit(i: nat, j: nat, x: string, y: string)
    requires i < |MAPPINGS| && j < |MAPPINGS| && MAPPINGS[i].target + x == MAPPINGS[j].target + y
    ensures i == j && x == y
  {
    var t, u := MAPPINGS[i].target, MAPPINGS[j].target;
    if |t| <= |u| {
      assert (t + x)[..|t|] == t && (u + y)[..|t|] == u[..|t|];
      TargetsArePrefixFree(i, j);
    } else {
      assert (t + x)[..|u|] == t[..|u|] && (u + y)[..|u|] == u;
      TargetsArePrefixFree(j, i);
    }
    assert (t + x)[|t|..] == x && (u + y)[|u|..] == y;
  }

  /** Different sources never share a module target. */
  lemma {:induction false} ModuleTargetIsInjective(a: string, b: string)
    requires ModuleTarget(a).Some? && ModuleTarget(a) == ModuleTarget(b)
    ensures a == b
  {
    var i, j := FirstMatch(a, 0).value, FirstMatch(b, 0).value;
    var x, y := a[|MAPPINGS[i].source|..], b[|MAPPINGS[j].source|..];
    DropPrefix(SITE_PACKAGES, MAPPINGS[i].target, x, MAPPINGS[j].target, y);
    TargetsSplit(i, j, x, y);
    assert a == MAPPINGS[i].source + x && b == MAPPINGS[j].source + y;
  }

  lemma DropPrefix(p: string, t: string, x: string, u: string, y: string)
    requires p + t + x == p + u + y
    ensures t + x == u + y
  {
    assert (p + t + x)[|p|..] == t + x;
    assert (p + u + y)[|p|..] == u + y;
  }

  /** Repository files and modules live apart. */
  lemma RepositoryAndModulesAreDisjoint(a: string, b: string)
    requires ModuleTarget(b).Some?
    ensures REPOSITORY + a != ModuleTarget(b).value
  {
    assert (REPOSITORY + a)[0] == 'r';
    assert ModuleTarget(b).value[0] == 's';
  }

  // ----- Building --------------------------------------------------------------------------------------

  datatype Row = Row(source: string, executable: bool, content: Bytes)

  datatype FileData = FileData(executable: bool, content: Bytes)

  datatype Entry = Entry(path: string, executable: bool, digest: Digest<Bytes>, source: string)

  datatype Generation = Generation(files: map<string, FileData>, entries: seq<Entry>)

  const GENERATION_MANIFEST: string := "GENERATION_MANIFEST.json"
  const SNAPSHOT_MANIFEST: string := "repository/SNAPSHOT_MANIFEST.json"
  const GIT_DIRECTORY: string := "repository/.git"
  const INITIALIZER: string := "__init__.py"

  function RepositoryEntry(r: Row): Entry {
    Entry(REPOSITORY + r.source, r.executable, Digest(r.content), r.source)
  }

  /** The entries of one row: the repository file, and the module if the source maps to one. */
  function RowEntries(r: Row): seq<Entry> {
    [RepositoryEntry(r)]
    + (if ModuleTarget(r.source).Some? then [Entry(ModuleTarget(r.source).value, false, Digest(r.content), r.source)] else [])
  }

  function AllEntries(rows: seq<Row>): seq<Entry> {
    if rows == [] then [] else AllEntries(rows[..|rows| - 1]) + RowEntries(rows[|rows| - 1])
  }

  predicate DistinctSources(rows: seq<Row>) {
    forall i, j :: 0 <= i < j < |rows| ==> rows[i].source != rows[j].source
  }

  predicate DistinctPaths(entries: seq<Entry>) {
    forall i, j :: 0 <= i < j < |entries| ==> entries[i].path != entries[j].path
  }

  lemma {:induction false} EntriesComeFromRows(rows: seq<Row>, k: nat)
    requires k < |AllEntries(rows)|
    ensures exists i :: 0 <= i < |rows| && AllEntries(rows)[k] in RowEntries(rows[i])
  {
    var rest := AllEntries(rows[..|rows| - 1]);
    if k < |rest| {
      EntriesComeFromRows(rows[..|rows| - 1], k);
      var i :| 0 <= i < |rows| - 1 && rest[k] in RowEntries(rows[..|rows| - 1][i]);
      assert AllEntries(rows)[k] in RowEntries(rows[i]);
    } else {
      assert AllEntries(rows)[k] == RowEntries(rows[|rows| - 1])[k - |rest|];
      assert AllEntries(rows)[k] in RowEntries(rows[|rows| - 1]);
    }
  }

  lemma RowsDoNotClash(a: Row, b: Row, x: Entry, y: Entry)
    requires a.source != b.source && x in RowEntries(a) && y in RowEntries(b)
    ensures x.path != y.path
  {
    assert (REPOSITORY + a.source)[|REPOSITORY|..] == a.source;
    assert (REPOSITORY + b.source)[|REPOSITORY|..] == b.source;
    if ModuleTarget(b.source).Some? {
      RepositoryAndModulesAreDisjoint(a.source, b.source);
    }
    if ModuleTarget(a.source).Some? {
      RepositoryAndModulesAreDisjoint(b.source, a.source);
      if ModuleTarget(a.source) == ModuleTarget(b.source) {
        ModuleTargetIsInjective(a.source, b.source);
      }
    }
  }

  /** The inventory of a tree never names a path twice. */
  lemma {:induction false} InventoryHasNoDuplicates(rows: seq<Row>)
    requires DistinctSources(rows)
    ensures DistinctPaths(AllEntries(rows))
  {
    if rows != [] {
      var n := |rows| - 1;
      InventoryHasNoDuplicates(rows[..n]);
      var rest, last := AllEntries(rows[..n]), RowEntries(rows[n]);
      var all: seq<Entry> := rest + last;
      forall i, j | 0 <= i < j < |all| ensures all[i].path != all[j].path {
        if i < |rest| <= j {
          EntriesComeFromRows(rows[..n], i);
          var k :| 0 <= k < n && rest[i] in RowEntries(rows[..n][k]);
          assert all[j] in last;
          RowsDoNotClash(rows[k], rows[n], rest[i], all[j]);
        } else if |rest| <= i {
          RepositoryAndModulesAreDisjoint(rows[n].source, rows[n].source);
        }
      }
    }
  }

  // ----- Attestation ------------------------------------------------------------------------------------

  const GIT_COMPONENT: string := "/.git/"

  /** A path with a `.git` directory among its components. */
  predicate InGit(path: string) {
    Contains("/" + path, GIT_COMPONENT)
  }

  /** A path that Git itself refuses to put into an index: one of its components is `.git`. */
  predicate HasGitComponent(path: string) {
    Contains("/" + path + "/", GIT_COMPONENT)
  }

  /** Files that the inventory comparison of `_attest_generation` leaves aside. */
  predicate LeftAside(path: string) {
    InGit(path) || path == GENERATION_MANIFEST || path == SNAPSHOT_MANIFEST
  }

  ghost predicate Listed(entries: seq<Entry>, path: string) {
    exists i :: 0 <= i < |entries| && entries[i].path == path
  }

  /** `_attest_generation`: the files are exactly the inventory, with the listed modes and digests, and
      every required import starts inside the generation. */
  ghost predicate Attested(g: Generation) {
    && (forall p :: p in g.files && !LeftAside(p) ==> Listed(g.entries, p))
    && (forall i :: 0 <= i < |g.entries| ==>
          var e := g.entries[i];
          && e.path in g.files && !LeftAside(e.path)
          && g.files[e.path].executable == e.executable && Digest(g.files[e.path].content) == e.digest)
    && (forall i :: 0 <= i < |MAPPINGS| ==> Listed(g.entries, SITE_PACKAGES + MAPPINGS[i].target + INITIALIZER))
  }

  /** An inventory lets through one set of files: two generations that are attested under the same one agree in
      every file that the comparison does not leave aside, modes included. */
  lemma {:induction false} AttestedPinsFiles(a: Generation, b: Generation, p: string)
    requires Attested(a) && Attested(b) && a.entries == b.entries && !LeftAside(p) && p in a.files
    ensures p in b.files && b.files[p] == a.files[p]
  {
    var i :| 0 <= i < |a.entries| && a.entries[i].path == p;
    var x, y := a.files[p].content, b.files[p].content;
    assert Digest(x) == a.entries[i].digest == Digest(y);
  }

  /** Every package of an attested generation has its initializer there, so its import starts inside. */
  lemma {:induction false} AttestedImportsStartInside(g: Generation, i: nat)
    requires Attested(g) && i < |MAPPINGS|
    ensures "site-packages/" + MAPPINGS[i].target + "__init__.py" in g.files
  {
    assert Listed(g.entries, SITE_PACKAGES + MAPPINGS[i].target + INITIALIZER);
    var k :| 0 <= k < |g.entries| && g.entries[k].path == SITE_PACKAGES + MAPPINGS[i].target + INITIALIZER;
  }

  lemma OccursIn(s: string, marker: string, k: nat)
    requires OccursAt(s, marker, k)
    ensures Contains(s, marker)
  {
  }

  /** A suffix of a string contains no more than the string. */
  lemma ContainsInSuffix(s: string, marker: string, from: nat)
    requires from <= |s| && Contains(s[from..], marker)
    ensures Contains(s, marker)
  {
    var k :| 0 <= k <= |s[from..]| && OccursAt(s[from..], marker, k);
    assert s[from..][k..k + |marker|] == s[from + k..from + k + |marker|];
    OccursIn(s, marker, from + k);
  }

  lemma {:induction false} SliceOfSuffix(s: string, from: nat, k: nat, n: nat)
    requires from <= k && k + n <= |s|
    ensures s[from..][k - from..k - from + n] == s[k..k + n]
  {
  }

  lemma {:induction false} StartsWithSlashDot(s: string, k: nat)
    requires OccursAt(s, GIT_COMPONENT, k)
    ensures k + 6 <= |s| && s[k] == '/' && s[k + 1] == '.'
  {
    var found := s[k..k + 6];
    assert found == GIT_COMPONENT && s[k] == found[0] && s[k + 1] == found[1];
  }

  /** Prefixing cannot create a `.git` component unless the prefix itself leads into one. */
  lemma SkipPrefix(prefix: string, rest: string)
    requires |prefix| > 0 && prefix[|prefix| - 1] == '/'
    requires forall k :: 0 <= k < |prefix| - 1 && prefix[k] == '/' ==> prefix[k + 1] != '.'
    requires Contains(prefix + rest, GIT_COMPONENT)
    ensures Contains("/" + rest, GIT_COMPONENT)
  {
    var s := prefix + rest;
    var k :| 0 <= k <= |s| && OccursAt(s, GIT_COMPONENT, k);
    StartsWithSlashDot(s, k);
    assert forall j :: 0 <= j < |prefix| ==> prefix[j] == s[j];
    assert k >= |prefix| - 1;
    var from := |prefix| - 1;
    assert s[from..] == "/" + rest;
    SliceOfSuffix(s, from, k, 6);
    OccursIn("/" + rest, GIT_COMPONENT, k - from);
  }

  lemma RepositoryInGit(source: string)
    ensures InGit(REPOSITORY + source) <==> InGit(source)
  {
    var prefix := "/" + REPOSITORY;
    assert "/" + (REPOSITORY + source) == prefix + source;
    if Contains(prefix + source, GIT_COMPONENT) {
      SkipPrefix(prefix, source);
    }
    if InGit(source) {
      assert (prefix + source)[|prefix| - 1..] == "/" + source;
      ContainsInSuffix(prefix + source, GIT_COMPONENT, |prefix| - 1);
    }
  }

  lemma SourceEndsInSlash(i: nat)
    requires i < |MAPPINGS|
    ensures var m := MAPPINGS[i].source; |m| > 0 && m[|m| - 1] == '/'
  {
  }

  lemma TargetStartsPlain(i: nat)
    requires i < |MAPPINGS|
    ensures MAPPINGS[i].target[0] != '.'
  {
  }

  lemma MappedInGit(m: Mapping, source: string)
    requires |m.target| > 0 && m.target[0] != '.' && m.target[|m.target| - 1] == '/'
    requires forall k :: 0 <= k < |m.target| - 1 ==> m.target[k] != '/'
    requires |m.source| > 0 && m.source[|m.source| - 1] == '/' && m.source <= source
    requires InGit(SITE_PACKAGES + m.target + source[|m.source|..])
    ensures InGit(source)
  {
    var rest := source[|m.source|..];
    var prefix := "/" + SITE_PACKAGES + m.target;
    assert "/" + (SITE_PACKAGES + m.target + rest) == prefix + rest;
    SitePackagesSlashes(m.target);
    SkipPrefix(prefix, rest);
    var whole := "/" + source;
    assert whole[|m.source|..] == [source[|m.source| - 1]] + rest;
    ContainsInSuffix(whole, GIT_COMPONENT, |m.source|);
  }

  /** A module path leads through `.git` only if its source does. */
  lemma ModuleInGit(source: string)
    requires ModuleTarget(source).Some? && InGit(ModuleTarget(source).value)
    ensures InGit(source)
  {
    var i := FirstMatch(source, 0).value;
    OnlyLastIsSlash(i);
    TargetStartsPlain(i);
    SourceEndsInSlash(i);
    MappedInGit(MAPPINGS[i], source);
  }

  lemma SitePackagesSlashes(target: string)
    requires |target| > 0 && target[0] != '.' && forall k :: 0 <= k < |target| - 1 ==> target[k] != '/'
    ensures var p := "/" + SITE_PACKAGES + target;
            forall k :: 0 <= k < |p| - 1 && p[k] == '/' ==> p[k + 1] != '.'
  {
    var p := "/" + SITE_PACKAGES + target;
    assert forall k :: 15 <= k < |p| ==> p[k] == target[k - 15];
    assert forall k :: 0 < k < 14 ==> p[k] != '/';
  }

  // ----- A completed build ------------------------------------------------------------------------------

  /** Where the build could collide: with the Git directory it moves in, or with its own manifests. */
  predicate Reserved(path: string) {
    path == GIT_DIRECTORY || GIT_DIRECTORY + "/" <= path || path == SNAPSHOT_MANIFEST || path == GENERATION_MANIFEST
  }

  /** The files written from the tree are exactly the entries so far. */
  ghost predicate Materialized(files: map<string, FileData>, entries: seq<Entry>) {
    && (forall p :: p in files ==> Listed(entries, p))
    && (forall i :: 0 <= i < |entries| ==>
          && entries[i].path in files
          && files[entries[i].path].executable == entries[i].executable
          && Digest(files[entries[i].path].content) == entries[i].digest)
  }

  lemma {:induction false} MaterializeNext(
      files: map<string, FileData>, entries: seq<Entry>, path: string, executable: bool, content: Bytes, source: string)
    requires Materialized(files, entries) && !Listed(entries, path)
    ensures Materialized(files[path := FileData(executable, content)], entries + [Entry(path, executable, Digest(content), source)])
  {
    var after, all := files[path := FileData(executable, content)], entries + [Entry(path, executable, Digest(content), source)];
    assert all[|entries|].path == path;
    forall p | p in after ensures Listed(all, p) {
      if p != path {
        var i :| 0 <= i < |entries| && entries[i].path == p;
        assert all[i].path == p;
      }
    }
  }

  class Builder {
    var files: map<string, FileData>
    var entries: seq<Entry>

    constructor ()
      ensures files == map[] && entries == []
    {
      files, entries := map[], [];
    }

    /** `_write_exact`, which refuses to overwrite, followed by the inventory entry. */
    method WriteEntry(path: string, executable: bool, content: Bytes, source: string) returns (ok: bool)
      requires Materialized(files, entries)
      modifies this
      ensures ok <==> !Listed(old(entries), path)
      ensures !ok ==> files == old(files) && entries == old(entries)
      ensures ok ==> entries == old(entries) + [Entry(path, executable, Digest(content), source)]
      ensures Materialized(files, entries)
    {
      if path in files {
        return false;
      }
      MaterializeNext(files, entries, path, executable, content, source);
      files := files[path := FileData(executable, content)];
      entries := entries + [Entry(path, executable, Digest(content), source)];
      return true;
    }

    /** One row: the repository file, then the module. */
    method WriteRow(r: Row)
      requires Materialized(files, entries) && DistinctPaths(entries + RowEntries(r))
      modifies this
      ensures entries == old(entries) + RowEntries(r) && Materialized(files, entries)
    {
      ghost var all := entries + RowEntries(r);
      NextIsNew(entries, RowEntries(r));
      var ok := WriteEntry(REPOSITORY + r.source, r.executable, r.content, r.source);
      var target := ModuleTarget(r.source);
      if target.Some? {
        assert entries + RowEntries(r)[1..] == all;
        NextIsNew(entries, RowEntries(r)[1..]);
        ok := WriteEntry(target.value, false, r.content, r.source);
      }
      assert entries == all;
    }

    /** The file loop of `_build_generation`.  Git lists every source once, so it never collides. */
    method WriteRows(rows: seq<Row>)
      requires DistinctSources(rows) && files == map[] && entries == []
      modifies this
      ensures entries == AllEntries(rows) && Materialized(files, entries)
    {
      for i := 0 to |rows|
        invariant entries == AllEntries(rows[..i]) && Materialized(files, entries)
      {
        assert rows[..i + 1][..i] == rows[..i];
        InventoryHasNoDuplicates(rows[..i + 1]);
        WriteRow(rows[i]);
      }
      assert rows[..|rows|] == rows;
    }

    /** `_build_generation`: the files of the tree, the Git directory and the two manifests.  Whatever it
        returns passes `_attest_generation`. */
    method Build(env: Environment, rows: seq<Row>, git: map<string, FileData>) returns (g: Option<Generation>)
      requires DistinctSources(rows) && files == map[] && entries == []
      requires GitRefusesItsOwn(env.indexes) && forall p :: p in git ==> GIT_DIRECTORY + "/" <= p
      modifies this
      ensures g.Some? <==> Buildable(env, rows, git)
      ensures g.Some? ==>
                && DistinctPaths(g.value.entries) && g.value.entries == AllEntries(rows)
                && Attested(g.value) && HoldsRows(rows, git, g.value.files) && InventoriesRows(rows, g.value.entries)
    {
      WriteRows(rows);
      InventoryHasNoDuplicates(rows);
      FilesAreDetermined(rows, files);
      if !NoneReserved(files) {
        return None;
      }
      var indexed := ResetIndex(env.indexes, rows);
      if !indexed || !HasImports(files) || !PassesGates(env, files, git) {
        return None;
      }
      g := Some(Generation(Finished(files, git), entries));
      BuiltIsAttested(env, rows, git);
      FinishedHoldsRows(rows, git);
      AllEntriesInventory(rows);
    }

    /** `git reset --mixed HEAD`: it reads every tracked path into the index or fails. */
    method ResetIndex(indexes: string -> bool, rows: seq<Row>) returns (ok: bool)
      ensures ok <==> Indexed(indexes, rows)
    {
      for i := 0 to |rows|
        invariant forall j :: 0 <= j < i ==> indexes(rows[j].source)
      {
        if !indexes(rows[i].source) {
          return false;
        }
      }
      return true;
    }
  }

  // ----- What else can stop a build -----------------------------------------------------------------------

  /** What the build finds around it: Git's path check, the pinned dependency manifest and interpreter, the
      offline lock, the parser of the syntax gate, and how the source pointer and the source manifest read.
      `objectsListed` says that Git lists the objects and their sizes are within bounds. */
  datatype Environment = Environment(
    indexes: string -> bool,
    pinsHold: bool,
    lock: Bytes,
    parses: Bytes -> bool,
    namesSource: Bytes -> Option<string>,
    isAuthority: Bytes -> bool,
    objectsListed: bool)

  /** Git's path check may refuse more than this, but it never accepts a `.git` component. */
  ghost predicate GitRefusesItsOwn(indexes: string -> bool) {
    forall path :: HasGitComponent(path) ==> !indexes(path)
  }

  predicate Indexed(indexes: string -> bool, rows: seq<Row>) {
    forall i :: 0 <= i < |rows| ==> indexes(rows[i].source)
  }

  predicate NoneReserved(files: map<string, FileData>) {
    forall p :: p in files ==> !Reserved(p)
  }

  predicate HasImports(files: map<string, FileData>) {
    forall i :: 0 <= i < |MAPPINGS| ==> SITE_PACKAGES + MAPPINGS[i].target + INITIALIZER in files
  }

  const SOURCE_POINTER: string := REPOSITORY + "config/active_generation.yaml"
  const EFFECTIVE_CONFIG: string := REPOSITORY + "config/factory.yaml"
  const CANDIDATE_LOCK: string := REPOSITORY + "uv.lock"

  /** The active source pointer names a manifest in the tree that is the authority of the handoff. */
  predicate SourceIsAuthoritative(env: Environment, all: map<string, FileData>) {
    && SOURCE_POINTER in all
    && var source := env.namesSource(all[SOURCE_POINTER].content);
    && source.Some? && REPOSITORY + source.value in all
    && env.isAuthority(all[REPOSITORY + source.value].content)
  }

  /** The pattern of a snapshot entry's path. */
  predicate EntryPattern(path: string) {
    && 1 <= |path| <= 4095 && path[0] != '/'
    && forall i :: 0 <= i < |path| ==> path[i] !in {'\0', '\r', '\n'}
  }

  /** The effective configuration and the pinned lock are there and every repository path can be inventoried. */
  predicate SnapshotIsValid(env: Environment, all: map<string, FileData>) {
    && EFFECTIVE_CONFIG in all && env.objectsListed
    && CANDIDATE_LOCK in all && all[CANDIDATE_LOCK].content == env.lock
    && forall p :: p in all && REPOSITORY <= p ==> EntryPattern(p[|REPOSITORY|..])
  }

  /** The gates after the files are in place, with the syntax check of every module. */
  predicate PassesGates(env: Environment, files: map<string, FileData>, git: map<string, FileData>) {
    && env.pinsHold && SourceIsAuthoritative(env, files + git) && SnapshotIsValid(env, files + git)
    && (forall p :: p in files && SITE_PACKAGES <= p ==> env.parses(files[p].content))
  }

  /** The files that a tree materialises. */
  function FilesOf(rows: seq<Row>): map<string, FileData> {
    if rows == [] then map[]
    else
      var r := rows[|rows| - 1];
      var files := FilesOf(rows[..|rows| - 1])[REPOSITORY + r.source := FileData(r.executable, r.content)];
      if ModuleTarget(r.source).Some? then files[ModuleTarget(r.source).value := FileData(false, r.content)] else files
  }

  function FileAt(files: map<string, FileData>, p: string): Option<FileData> {
    if p in files then Some(files[p]) else None
  }

  /** The generation holds every tracked file under `repository/` with its mode and bytes, every module of a mapped
      package again under `site-packages/` without the executable bit, the Git directory, the two manifests and
      nothing else. */
  ghost predicate HoldsRows(rows: seq<Row>, git: map<string, FileData>, files: map<string, FileData>) {
    && (forall r :: r in rows ==> FileAt(files, "repository/" + r.source) == Some(FileData(r.executable, r.content)))
    && (forall r, i :: r in rows && 0 <= i < |MAPPINGS| && MAPPINGS[i].source <= r.source && EndsWith(r.source, ".py") ==>
          FileAt(files, "site-packages/" + MAPPINGS[i].target + r.source[|MAPPINGS[i].source|..]) == Some(FileData(false, r.content)))
    && (forall p :: p in git ==> p in files && files[p] == git[p])
    && (forall p :: p in files && p !in git && p != "GENERATION_MANIFEST.json" && p != "repository/SNAPSHOT_MANIFEST.json" ==>
          exists r :: r in rows && (p == "repository/" + r.source || ModuleTarget(r.source) == Some(p)))
  }

  /** The inventory names both files of each row, with mode, digest and source. */
  ghost predicate InventoriesRows(rows: seq<Row>, entries: seq<Entry>) {
    forall r :: r in rows ==>
      && Entry("repository/" + r.source, r.executable, Digest(r.content), r.source) in entries
      && (ModuleTarget(r.source).Some? ==> Entry(ModuleTarget(r.source).value, false, Digest(r.content), r.source) in entries)
  }

  lemma {:induction false} RowsAreInventoried(rows: seq<Row>, r: Row, e: Entry)
    requires r in rows && e in RowEntries(r)
    ensures e in AllEntries(rows)
  {
    var n := |rows| - 1;
    if r != rows[n] {
      assert rows == rows[..n] + [rows[n]];
      RowsAreInventoried(rows[..n], r, e);
    }
  }

  lemma {:induction false} AllEntriesInventory(rows: seq<Row>)
    ensures InventoriesRows(rows, AllEntries(rows))
  {
    forall r | r in rows
      ensures Entry("repository/" + r.source, r.executable, Digest(r.content), r.source) in AllEntries(rows)
      ensures ModuleTarget(r.source).Some? ==> Entry(ModuleTarget(r.source).value, false, Digest(r.content), r.source) in AllEntries(rows)
    {
      RowsAreInventoried(rows, r, RepositoryEntry(r));
      if ModuleTarget(r.source).Some? {
        RowsAreInventoried(rows, r, RowEntries(r)[1]);
      }
    }
  }

  lemma {:induction false} EntryIsFile(rows: seq<Row>, e: Entry)
    requires DistinctSources(rows) && e in AllEntries(rows)
    ensures e.path in FilesOf(rows) && FilesOf(rows)[e.path].executable == e.executable && Digest(FilesOf(rows)[e.path].content) == e.digest
  {
    FilesOfAreMaterialized(rows);
    var i :| 0 <= i < |AllEntries(rows)| && AllEntries(rows)[i] == e;
  }

  lemma {:induction false} RowIsFile(rows: seq<Row>, r: Row)
    requires DistinctSources(rows) && r in rows
    ensures var files := FilesOf(rows);
            && "repository/" + r.source in files && files["repository/" + r.source] == FileData(r.executable, r.content)
            && (ModuleTarget(r.source).Some? ==>
                  ModuleTarget(r.source).value in files && files[ModuleTarget(r.source).value] == FileData(false, r.content))
  {
    AllEntriesInventory(rows);
    EntryIsFile(rows, Entry("repository/" + r.source, r.executable, Digest(r.content), r.source));
    if ModuleTarget(r.source).Some? {
      EntryIsFile(rows, Entry(ModuleTarget(r.source).value, false, Digest(r.content), r.source));
    }
  }

  lemma {:induction false} FileIsRow(rows: seq<Row>, p: string) returns (r: Row)
    requires DistinctSources(rows) && p in FilesOf(rows)
    ensures r in rows && (p == "repository/" + r.source || ModuleTarget(r.source) == Some(p)) && FilesOf(rows)[p].content == r.content
  {
    FilesOfAreMaterialized(rows);
    var k :| 0 <= k < |AllEntries(rows)| && AllEntries(rows)[k].path == p;
    EntriesComeFromRows(rows, k);
    var i :| 0 <= i < |rows| && AllEntries(rows)[k] in RowEntries(rows[i]);
    r := rows[i];
  }

  lemma GitIsNoManifest(p: string)
    requires GIT_DIRECTORY + "/" <= p
    ensures p != SNAPSHOT_MANIFEST && p != GENERATION_MANIFEST
  {
    assert (GIT_DIRECTORY + "/")[11] == p[11] == '.';
    assert SNAPSHOT_MANIFEST[11] == 'S' && GENERATION_MANIFEST[11] == 'M';
  }

  lemma {:induction false} FinishedHoldsRows(rows: seq<Row>, git: map<string, FileData>)
    requires DistinctSources(rows) && NoneReserved(FilesOf(rows)) && forall p :: p in git ==> GIT_DIRECTORY + "/" <= p
    ensures HoldsRows(rows, git, Finished(FilesOf(rows), git))
  {
    var files, all := FilesOf(rows), Finished(FilesOf(rows), git);
    forall p | p in files ensures p in all && all[p] == files[p] {
      assert !Reserved(p);
    }
    forall p | p in git ensures p in all && all[p] == git[p] {
      GitIsNoManifest(p);
    }
    forall r | r in rows ensures FileAt(all, "repository/" + r.source) == Some(FileData(r.executable, r.content)) {
      RowIsFile(rows, r);
    }
    forall r, i | r in rows && 0 <= i < |MAPPINGS| && MAPPINGS[i].source <= r.source && EndsWith(r.source, ".py")
      ensures FileAt(all, "site-packages/" + MAPPINGS[i].target + r.source[|MAPPINGS[i].source|..]) == Some(FileData(false, r.content))
    {
      RowIsFile(rows, r);
      ModuleTargetExactly(r.source, i);
    }
    forall p | p in files ensures exists r :: r in rows && (p == "repository/" + r.source || ModuleTarget(r.source) == Some(p)) {
      var r := FileIsRow(rows, p);
    }
  }

  /** A repository file of the generation is a tracked file. */
  lemma {:induction false} RepositoryFileIsRow(rows: seq<Row>, source: string) returns (r: Row)
    requires DistinctSources(rows) && REPOSITORY + source in FilesOf(rows)
    ensures r in rows && r.source == source && FilesOf(rows)[REPOSITORY + source].content == r.content
  {
    r := FileIsRow(rows, REPOSITORY + source);
    if ModuleTarget(r.source).Some? {
      RepositoryAndModulesAreDisjoint(source, r.source);
    }
    assert (REPOSITORY + source)[|REPOSITORY|..] == source && (REPOSITORY + r.source)[|REPOSITORY|..] == r.source;
  }

  lemma {:induction false} TrackedFile(rows: seq<Row>, git: map<string, FileData>, source: string) returns (r: Row)
    requires DistinctSources(rows) && (forall p :: p in git ==> GIT_DIRECTORY + "/" <= p) && |source| > 0 && source[0] != '.'
    requires REPOSITORY + source in FilesOf(rows) + git
    ensures r in rows && r.source == source && (FilesOf(rows) + git)[REPOSITORY + source].content == r.content
  {
    NotInGit(rows, git, source);
    r := RepositoryFileIsRow(rows, source);
  }

  lemma ReservedNames()
    ensures REPOSITORY + ".git" == GIT_DIRECTORY && REPOSITORY + "SNAPSHOT_MANIFEST.json" == SNAPSHOT_MANIFEST
  {
  }

  /** What a build needs of the tree: the pinned lock and a factory configuration. */
  lemma {:induction false} BuildNeedsFiles(env: Environment, rows: seq<Row>, git: map<string, FileData>)
    requires DistinctSources(rows) && SnapshotIsValid(env, FilesOf(rows) + git) && forall p :: p in git ==> GIT_DIRECTORY + "/" <= p
    ensures exists r :: r in rows && r.source == "uv.lock" && r.content == env.lock
    ensures exists r :: r in rows && r.source == "config/factory.yaml"
  {
    var lock := TrackedFile(rows, git, "uv.lock");
    var config := TrackedFile(rows, git, "config/factory.yaml");
  }

  /** And a source pointer that names a manifest which is the authority. */
  lemma {:induction false} BuildNeedsSource(env: Environment, rows: seq<Row>, git: map<string, FileData>)
    requires DistinctSources(rows) && SourceIsAuthoritative(env, FilesOf(rows) + git) && forall p :: p in git ==> GIT_DIRECTORY + "/" <= p
    ensures exists r :: r in rows && r.source == "config/active_generation.yaml" && PointsToAuthority(env, rows, git, r)
  {
    var pointer := TrackedFile(rows, git, "config/active_generation.yaml");
  }

  /** The active generation names a file of the tree, or of the Git directory, that is the authority of the handoff. */
  ghost predicate PointsToAuthority(env: Environment, rows: seq<Row>, git: map<string, FileData>, pointer: Row) {
    && env.namesSource(pointer.content).Some?
    && var file := FileAt(FilesOf(rows) + git, "repository/" + env.namesSource(pointer.content).value);
    file.Some? && env.isAuthority(file.value.content)
  }

  /** The path is relative, on one line and at most 4095 characters long. */
  predicate FitsInventory(path: string) {
    0 < |path| <= 4095 && path[0] != '/' && forall i :: 0 <= i < |path| ==> path[i] != '\0' && path[i] != '\r' && path[i] != '\n'
  }

  lemma {:induction false} BuildNeedsPath(env: Environment, rows: seq<Row>, git: map<string, FileData>, r: Row)
    requires DistinctSources(rows) && r in rows && SnapshotIsValid(env, FilesOf(rows) + git)
    ensures FitsInventory(r.source)
  {
    RowIsFile(rows, r);
    var p := REPOSITORY + r.source;
    assert p in FilesOf(rows) + git && REPOSITORY <= p && p[|REPOSITORY|..] == r.source;
  }

  /** Every module of a mapped package parses, and no tracked path is the Git directory or a manifest. */
  lemma {:induction false} BuildNeedsRows(env: Environment, rows: seq<Row>, r: Row)
    requires DistinctSources(rows) && r in rows && NoneReserved(FilesOf(rows))
    requires forall p :: p in FilesOf(rows) && SITE_PACKAGES <= p ==> env.parses(FilesOf(rows)[p].content)
    ensures ModuleTarget(r.source).Some? ==> env.parses(r.content)
    ensures r.source != ".git" && r.source != "SNAPSHOT_MANIFEST.json"
  {
    RowIsFile(rows, r);
    ReservedNames();
    if ModuleTarget(r.source).Some? {
      assert SITE_PACKAGES <= ModuleTarget(r.source).value;
    }
    assert !Reserved(REPOSITORY + r.source);
  }

  /** What the tree and the environment owe to a build. */
  lemma {:induction false} BuildableMeans(env: Environment, rows: seq<Row>, git: map<string, FileData>)
    requires DistinctSources(rows) && Buildable(env, rows, git) && forall p :: p in git ==> GIT_DIRECTORY + "/" <= p
    ensures env.pinsHold && env.objectsListed
    ensures exists r :: r in rows && r.source == "uv.lock" && r.content == env.lock
    ensures exists r :: r in rows && r.source == "config/factory.yaml"
    ensures exists r :: r in rows && r.source == "config/active_generation.yaml" && PointsToAuthority(env, rows, git, r)
    ensures forall r :: r in rows ==>
              && env.indexes(r.source) && r.source != ".git" && r.source != "SNAPSHOT_MANIFEST.json"
              && (ModuleTarget(r.source).Some? ==> env.parses(r.content)) && FitsInventory(r.source)
  {
    BuildNeedsFiles(env, rows, git);
    BuildNeedsSource(env, rows, git);
    forall r | r in rows
      ensures env.indexes(r.source) && r.source != ".git" && r.source != "SNAPSHOT_MANIFEST.json"
      ensures (ModuleTarget(r.source).Some? ==> env.parses(r.content)) && FitsInventory(r.source)
    {
      BuildNeedsRows(env, rows, r);
      BuildNeedsPath(env, rows, git, r);
      var i :| 0 <= i < |rows| && rows[i] == r;
    }
  }

  /** The Git directory holds no file of that name. */
  lemma {:induction false} NotInGit(rows: seq<Row>, git: map<string, FileData>, source: string)
    requires (forall p :: p in git ==> GIT_DIRECTORY + "/" <= p) && |source| > 0 && source[0] != '.'
    ensures REPOSITORY + source !in git
    ensures REPOSITORY + source in FilesOf(rows) + git ==>
              REPOSITORY + source in FilesOf(rows) && (FilesOf(rows) + git)[REPOSITORY + source] == FilesOf(rows)[REPOSITORY + source]
  {
    assert (REPOSITORY + source)[11] == source[0];
    Apart(GIT_DIRECTORY + "/", REPOSITORY + source, 11);
  }

  /** When `_build_generation` returns, told from the tree, the Git directory and the environment. */
  ghost predicate Buildable(env: Environment, rows: seq<Row>, git: map<string, FileData>) {
    var files := FilesOf(rows);
    NoneReserved(files) && Indexed(env.indexes, rows) && HasImports(files) && PassesGates(env, files, git)
  }

  lemma {:induction false} FilesOfAreMaterialized(rows: seq<Row>)
    requires DistinctSources(rows)
    ensures Materialized(FilesOf(rows), AllEntries(rows))
  {
    if rows != [] {
      var n := |rows| - 1;
      FilesOfAreMaterialized(rows[..n]);
      InventoryHasNoDuplicates(rows);
      var r, before, files := rows[n], AllEntries(rows[..n]), FilesOf(rows[..n]);
      assert AllEntries(rows) == before + RowEntries(r);
      NextIsNew(before, RowEntries(r));
      MaterializeNext(files, before, REPOSITORY + r.source, r.executable, r.content, r.source);
      if ModuleTarget(r.source).Some? {
        var once := before + [RepositoryEntry(r)];
        assert AllEntries(rows) == once + RowEntries(r)[1..];
        NextIsNew(once, RowEntries(r)[1..]);
        MaterializeNext(files[REPOSITORY + r.source := FileData(r.executable, r.content)], once,
                        ModuleTarget(r.source).value, false, r.content, r.source);
      } else {
        assert AllEntries(rows) == before + [RepositoryEntry(r)];
      }
    }
  }

  /** The inventory determines the files. */
  lemma {:induction false} FilesAreDetermined(rows: seq<Row>, files: map<string, FileData>)
    requires DistinctSources(rows) && Materialized(files, AllEntries(rows))
    ensures files == FilesOf(rows)
  {
    FilesOfAreMaterialized(rows);
    var other := FilesOf(rows);
    forall p ensures p in files <==> p in other {
    }
    forall p | p in files ensures files[p] == other[p] {
      assert Listed(AllEntries(rows), p);
    }
  }

  /** Every build that completes passes attestation. */
  lemma {:induction false} BuiltIsAttested(env: Environment, rows: seq<Row>, git: map<string, FileData>)
    requires DistinctSources(rows) && GitRefusesItsOwn(env.indexes) && Buildable(env, rows, git)
    requires forall p :: p in git ==> GIT_DIRECTORY + "/" <= p
    ensures Attested(Generation(Finished(FilesOf(rows), git), AllEntries(rows)))
  {
    var files, entries := FilesOf(rows), AllEntries(rows);
    FilesOfAreMaterialized(rows);
    NoSourceInGit(env, rows);
    forall k | 0 <= k < |entries| ensures !Reserved(entries[k].path) {
      assert entries[k].path in files;
    }
    AttestedExactly(rows, files, git);
  }

  /** No indexed source lies in a `.git` directory. */
  lemma {:induction false} NoSourceInGit(env: Environment, rows: seq<Row>)
    requires GitRefusesItsOwn(env.indexes) && Indexed(env.indexes, rows)
    ensures forall i :: 0 <= i < |rows| ==> !InGit(rows[i].source)
  {
    forall i | 0 <= i < |rows| ensures !InGit(rows[i].source) {
      if InGit(rows[i].source) {
        InGitIsComponent(rows[i].source);
      }
    }
  }

  lemma {:induction false} InGitIsComponent(path: string)
    requires InGit(path)
    ensures HasGitComponent(path)
  {
    var s := "/" + path;
    var k :| 0 <= k <= |s| && OccursAt(s, GIT_COMPONENT, k);
    assert (s + "/")[k..k + 6] == s[k..k + 6];
    OccursIn(s + "/", GIT_COMPONENT, k);
  }

  lemma NextIsNew(entries: seq<Entry>, more: seq<Entry>)
    requires more != [] && DistinctPaths(entries + more)
    ensures !Listed(entries, more[0].path)
  {
    var all := entries + more;
    assert all[|entries|] == more[0];
    assert forall k :: 0 <= k < |entries| ==> all[k] == entries[k];
  }

  lemma {:induction false} RowIsInventoried(rows: seq<Row>, i: nat) returns (k: nat)
    requires i < |rows|
    ensures k < |AllEntries(rows)| && AllEntries(rows)[k] == RepositoryEntry(rows[i])
  {
    var n := |rows| - 1;
    if i < n {
      k := RowIsInventoried(rows[..n], i);
    } else {
      k := |AllEntries(rows[..n])|;
    }
  }

  lemma GitFilesAreInGit(p: string)
    requires GIT_DIRECTORY + "/" <= p
    ensures InGit(p)
  {
    var s := "/" + p;
    assert p[..16] == "repository/.git/";
    assert s[11..17] == p[10..16] == p[..16][10..16] == GIT_COMPONENT;
    OccursIn(s, GIT_COMPONENT, 11);
  }

  lemma {:induction false} EntryInGit(rows: seq<Row>, k: nat)
    requires k < |AllEntries(rows)| && InGit(AllEntries(rows)[k].path)
    ensures exists i :: 0 <= i < |rows| && InGit(rows[i].source)
  {
    EntriesComeFromRows(rows, k);
    var i :| 0 <= i < |rows| && AllEntries(rows)[k] in RowEntries(rows[i]);
    RepositoryInGit(rows[i].source);
    if ModuleTarget(rows[i].source).Some? && InGit(ModuleTarget(rows[i].source).value) {
      ModuleInGit(rows[i].source);
    }
    assert InGit(rows[i].source);
  }

  /** The files of a finished generation: those of the tree, the Git directory and the two manifests. */
  function Finished(files: map<string, FileData>, git: map<string, FileData>): map<string, FileData> {
    var empty := FileData(false, []);
    files + git + map[GENERATION_MANIFEST := empty, SNAPSHOT_MANIFEST := empty]
  }

  lemma {:induction false} PlainTreeIsAttested(entries: seq<Entry>, files: map<string, FileData>, git: map<string, FileData>)
    requires Materialized(files, entries)
    requires forall p :: p in git ==> GIT_DIRECTORY + "/" <= p
    requires forall k :: 0 <= k < |entries| ==> !Reserved(entries[k].path) && !InGit(entries[k].path)
    requires forall i :: 0 <= i < |MAPPINGS| ==> Listed(entries, SITE_PACKAGES + MAPPINGS[i].target + INITIALIZER)
    ensures Attested(Generation(Finished(files, git), entries))
  {
    var all := Finished(files, git);
    forall p | p in all && !LeftAside(p) ensures Listed(entries, p) {
      if p in git {
        GitFilesAreInGit(p);
      }
    }
    forall k | 0 <= k < |entries|
      ensures entries[k].path in all && all[entries[k].path] == files[entries[k].path]
    {
      assert !Reserved(entries[k].path);
    }
  }

  /** The inventory comparison passes exactly when no tracked file lies below a `.git` directory. */
  lemma {:induction false} AttestedExactly(rows: seq<Row>, files: map<string, FileData>, git: map<string, FileData>)
    requires Materialized(files, AllEntries(rows))
    requires forall k :: 0 <= k < |AllEntries(rows)| ==> !Reserved(AllEntries(rows)[k].path)
    requires forall i :: 0 <= i < |MAPPINGS| ==> Listed(AllEntries(rows), SITE_PACKAGES + MAPPINGS[i].target + INITIALIZER)
    requires forall p :: p in git ==> GIT_DIRECTORY + "/" <= p
    ensures Attested(Generation(Finished(files, git), AllEntries(rows))) <==> forall i :: 0 <= i < |rows| ==> !InGit(rows[i].source)
  {
    var entries := AllEntries(rows);
    if i :| 0 <= i < |rows| && InGit(rows[i].source) {
      var k := RowIsInventoried(rows, i);
      RepositoryInGit(rows[i].source);
      assert LeftAside(entries[k].path);
    } else {
      forall k | 0 <= k < |entries| ensures !InGit(entries[k].path) {
        if InGit(entries[k].path) {
          EntryInGit(rows, k);
        }
      }
      PlainTreeIsAttested(entries, files, git);
    }
  }
}
