/** A staging directory filled file by file, as the runtime extractor and the snapshot builder do:
    parents are created on the way, and an occupied path or a parent that is a file stops the work.

    A path is the sequence of its components; the root of the tree is the empty path and is not listed. */
module StageTree {
  import opened Prelude

  type Path = seq<string>

  datatype Node<T> = Folder | File(value: T)

  datatype Item<T> = Item(path: Path, value: T)

  predicate Below(p: Path, ancestor: Path) {
    |p| > |ancestor| && p[..|ancestor|] == ancestor
  }

  /** `mkdir(parents=True, exist_ok=True)` of the parent of `p` meets a file. */
  predicate Blocked<T>(tree: map<Path, Node<T>>, p: Path) {
    exists k :: 0 < k < |p| && p[..k] in tree && tree[p[..k]].File?
  }

  function Parents<T>(p: Path): map<Path, Node<T>> {
    map k: nat | 0 < k < |p| :: p[..k] := Folder
  }

  predicate CanPlace<T>(tree: map<Path, Node<T>>, p: Path) {
    p != [] && p !in tree && !Blocked(tree, p)
  }

  /** Create the parents, then the file, which must not exist. */
  function Place<T>(tree: map<Path, Node<T>>, x: Item<T>): Option<map<Path, Node<T>>> {
    if CanPlace(tree, x.path) then Some(tree + Parents<T>(x.path) + map[x.path := File(x.value)]) else None
  }

  function PlaceAll<T>(tree: map<Path, Node<T>>, items: seq<Item<T>>): Option<map<Path, Node<T>>>
    decreases |items|
  {
    if items == [] then Some(tree)
    else
      var next := Place(tree, items[0]);
      if next.None? then None else PlaceAll(next.value, items[1..])
  }

  lemma {:induction false} PlaceAllAppend<T>(tree: map<Path, Node<T>>, a: seq<Item<T>>, b: seq<Item<T>>)
    ensures var first := PlaceAll(tree, a);
            PlaceAll(tree, a + b) == if first.None? then None else PlaceAll(first.value, b)
    decreases |a|
  {
    if a == [] {
      assert a + b == b;
    } else {
      assert (a + b)[1..] == a[1..] + b;
      var next := Place(tree, a[0]);
      if next.Some? {
        PlaceAllAppend(next.value, a[1..], b);
      }
    }
  }

  // ----- What a filled tree is ---------------------------------------------------------------------

  /** Two items that cannot stand in one tree: the same path, or one a directory of the other. */
  predicate Clash(p: Path, q: Path) {
    p == q || Below(p, q) || Below(q, p)
  }

  predicate Clean<T>(items: seq<Item<T>>) {
    && (forall i :: 0 <= i < |items| ==> items[i].path != [])
    && (forall i, j :: 0 <= i < j < |items| ==> !Clash(items[i].path, items[j].path))
  }

  predicate IsFolder<T>(items: seq<Item<T>>, p: Path) {
    p != [] && exists i :: 0 <= i < |items| && Below(items[i].path, p)
  }

  ghost predicate HoldsFiles<T>(tree: map<Path, Node<T>>, items: seq<Item<T>>) {
    && (forall p :: p in tree && tree[p].File? ==> Item(p, tree[p].value) in items)
    && (forall i :: 0 <= i < |items| ==> items[i].path in tree && tree[items[i].path] == File(items[i].value))
  }

  ghost predicate HoldsFolders<T>(tree: map<Path, Node<T>>, items: seq<Item<T>>) {
    forall p :: IsFolder(items, p) <==> p in tree && tree[p] == Folder
  }

  /** Exactly the items, and the directories above them. */
  ghost predicate Holds<T>(tree: map<Path, Node<T>>, items: seq<Item<T>>) {
    HoldsFiles(tree, items) && HoldsFolders(tree, items)
  }

  lemma {:induction false} ClashesStop<T>(tree: map<Path, Node<T>>, items: seq<Item<T>>, p: Path, i: nat)
    requires Holds(tree, items) && i < |items| && items[i].path != [] && Clash(items[i].path, p)
    ensures !CanPlace(tree, p)
  {
    var q := items[i].path;
    if Below(q, p) && p != [] {
      assert IsFolder(items, p);
    } else if Below(p, q) {
      assert p[..|q|] in tree;
    }
  }

  lemma {:induction false} OnlyClashesStop<T>(tree: map<Path, Node<T>>, items: seq<Item<T>>, p: Path) returns (i: nat)
    requires Holds(tree, items) && p != [] && !CanPlace(tree, p)
    ensures i < |items| && Clash(items[i].path, p)
  {
    if p in tree && tree[p].File? {
      i :| 0 <= i < |items| && items[i] == Item(p, tree[p].value);
    } else if p in tree {
      assert IsFolder(items, p);
      i :| 0 <= i < |items| && Below(items[i].path, p);
    } else {
      var k :| 0 < k < |p| && p[..k] in tree && tree[p[..k]].File?;
      i :| 0 <= i < |items| && items[i] == Item(p[..k], tree[p[..k]].value);
    }
  }

  lemma {:induction false} PlaceKeepsFiles<T>(tree: map<Path, Node<T>>, items: seq<Item<T>>, x: Item<T>)
    requires HoldsFiles(tree, items) && Place(tree, x).Some?
    ensures HoldsFiles(Place(tree, x).value, items + [x])
  {
    assert !Blocked(tree, x.path);
    assert forall i :: 0 <= i < |items| ==> items[i].path !in Parents<T>(x.path);
  }

  lemma {:induction false} IsFolderAppend<T>(items: seq<Item<T>>, x: Item<T>, p: Path)
    ensures IsFolder(items + [x], p) <==> IsFolder(items, p) || p in Parents<T>(x.path)
  {
    var all := items + [x];
    assert all[|items|] == x;
    if IsFolder(items, p) {
      var i :| 0 <= i < |items| && Below(items[i].path, p);
      assert all[i] == items[i];
    }
    if p in Parents<T>(x.path) {
      assert Below(all[|items|].path, p);
    }
    if IsFolder(all, p) {
      var i :| 0 <= i < |all| && Below(all[i].path, p);
      if i == |items| {
        assert p == x.path[..|p|];
      }
    }
  }

  lemma {:induction false} PlaceKeepsFolders<T>(tree: map<Path, Node<T>>, items: seq<Item<T>>, x: Item<T>)
    requires HoldsFolders(tree, items) && Place(tree, x).Some?
    ensures HoldsFolders(Place(tree, x).value, items + [x])
  {
    forall p ensures IsFolder(items + [x], p) <==> p in Place(tree, x).value && Place(tree, x).value[p] == Folder {
      IsFolderAppend(items, x, p);
      assert p == x.path ==> p !in Parents<T>(x.path) && !IsFolder(items, p);
    }
  }

  lemma {:induction false} PlaceKeepsClean<T>(tree: map<Path, Node<T>>, items: seq<Item<T>>, x: Item<T>)
    requires Clean(items) && Holds(tree, items) && Place(tree, x).Some?
    ensures Clean(items + [x])
  {
    forall i | 0 <= i < |items| ensures !Clash(items[i].path, x.path) {
      if Clash(items[i].path, x.path) {
        ClashesStop(tree, items, x.path, i);
      }
    }
  }

  lemma {:induction false} PlaceAllFrom<T>(tree: map<Path, Node<T>>, done: seq<Item<T>>, items: seq<Item<T>>)
    requires Clean(done) && Holds(tree, done)
    ensures PlaceAll(tree, items).Some? <==> Clean(done + items)
    ensures PlaceAll(tree, items).Some? ==> Holds(PlaceAll(tree, items).value, done + items)
    decreases |items|
  {
    if items == [] {
      assert done + items == done;
    } else {
      var x, all := items[0], done + items;
      assert all == done + [x] + items[1..];
      if Place(tree, x).Some? {
        PlaceKeepsFiles(tree, done, x);
        PlaceKeepsFolders(tree, done, x);
        PlaceKeepsClean(tree, done, x);
        PlaceAllFrom(Place(tree, x).value, done + [x], items[1..]);
      } else {
        assert all[|done|] == x;
        if x.path != [] {
          var i := OnlyClashesStop(tree, done, x.path);
          assert all[i] == done[i];
        }
      }
    }
  }

  /** Filling an empty tree succeeds exactly when no two items clash, and then the tree holds the items
      and the directories above them, and nothing else. */
  lemma {:induction false} FilledExactly<T>(items: seq<Item<T>>)
    ensures PlaceAll(map[], items).Some? <==> Clean(items)
    ensures PlaceAll(map[], items).Some? ==> Holds(PlaceAll(map[], items).value, items)
  {
    var none: seq<Item<T>> := [];
    assert none + items == items;
    PlaceAllFrom(map[], none, items);
  }
}
