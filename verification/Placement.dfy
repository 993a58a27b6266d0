/** Where the items of a collection lie, and when a collection fails. */
module Placement {
  import opened Options
  import opened LittleEndian
  import opened Names
  import opened Siblings
  import opened CollectTree
  import opened TreeProperties
  import opened SiblingOrder

  //
  // Every item lies in the directory its row names
  //

  /** Item `j` is the first directory item with its number. */
  ghost predicate IsFirst(items: seq<Item>, j: nat) {
    && j < |items| && items[j].record.isDirectory
    && forall m :: 0 <= m < j ==> !(items[m].record.isDirectory
                                     && items[m].record.recordIdGuess == items[j].record.recordIdGuess)
  }

  /** `base` is where the children of `directory` lie. */
  ghost predicate IsHome(items: seq<Item>, root: nat, directory: nat, base: Path) {
    if directory == root then base == []
    else exists j: nat :: IsFirst(items, j) && items[j].record.recordIdGuess == directory && items[j].path == base
  }

  /** The item has its own sanitised name, in the home of the directory that its row names as parent. */
  ghost predicate IsPlaced(items: seq<Item>, root: nat, item: Item) {
    IsNamed(item) && IsHome(items, root, item.record.parentRef, Parent(item.path))
  }

  ghost predicate ArePlaced(items: seq<Item>, root: nat) {
    forall i :: 0 <= i < |items| ==> IsPlaced(items, root, items[i])
  }

  /** The root and every directory item are among these directories. */
  ghost predicate AreEntered(items: seq<Item>, root: nat, entered: set<nat>) {
    root in entered
    && forall i :: 0 <= i < |items| && items[i].record.isDirectory ==> items[i].record.recordIdGuess in entered
  }

  lemma HomeStays(items: seq<Item>, longer: seq<Item>, root: nat, directory: nat, base: Path)
    requires items <= longer && IsHome(items, root, directory, base)
    ensures IsHome(longer, root, directory, base)
  {
    if directory != root {
      var j: nat :| IsFirst(items, j) && items[j].record.recordIdGuess == directory && items[j].path == base;
      assert IsFirst(longer, j) && longer[j] == items[j];
    }
  }

  lemma HomeIsUnique(items: seq<Item>, root: nat, directory: nat, a: Path, b: Path)
    requires IsHome(items, root, directory, a) && IsHome(items, root, directory, b)
    ensures a == b
  {
  }

  /** Adding a child at its directory's home. */
  lemma AddedIsPlaced(items: seq<Item>, root: nat, directory: nat, base: Path, child: StoredRecord)
    requires ArePlaced(items, root) && IsHome(items, root, directory, base) && child.parentRef == directory
    ensures ArePlaced(items + [Item(child, PathBelow(base, child))], root)
  {
    var item := Item(child, PathBelow(base, child));
    var all := items + [item];
    assert Parent(item.path) == base;
    forall i | 0 <= i < |all|
      ensures IsPlaced(all, root, all[i])
    {
      HomeStays(items, all, root, all[i].record.parentRef, Parent(all[i].path));
    }
  }

  lemma {:induction false} DirectoryPlaces(rows: set<StoredRecord>, root: nat, directory: nat, base: Path, w: Walk)
    requires CollectedDirectory(rows, directory, base, w).Some?
    requires ArePlaced(w.items, root) && (directory !in w.visited ==> IsHome(w.items, root, directory, base))
    requires AreEntered(w.items, root, w.visited + {directory})
    ensures var r := CollectedDirectory(rows, directory, base, w).value;
            w.items <= r.items && ArePlaced(r.items, root) && AreEntered(r.items, root, r.visited)
    decreases RecordIds(rows) + {directory} - w.visited, 0
  {
    if directory !in w.visited {
      assert directory in RecordIds(rows) + {directory} - w.visited;
      ListPlaces(rows, root, ChildList(rows, directory), directory, base, Entered(w, directory));
    }
  }

  lemma {:induction false} ChildPlaces(rows: set<StoredRecord>, root: nat, child: StoredRecord, directory: nat,
                                       base: Path, w: Walk)
    requires child in rows && child.parentRef == directory && CollectedChild(rows, child, base, w).Some?
    requires ArePlaced(w.items, root) && IsHome(w.items, root, directory, base) && AreEntered(w.items, root, w.visited)
    ensures var r := CollectedChild(rows, child, base, w).value;
            w.items <= r.items && ArePlaced(r.items, root) && AreEntered(r.items, root, r.visited)
    decreases RecordIds(rows) - w.visited, 1
  {
    var relative := PathBelow(base, child);
    var added := Added(w, child, relative);
    AddedIsPlaced(w.items, root, directory, base, child);
    AddedIsEntered(w, root, child, relative);
    if child.isDirectory {
      DirectoryPlaces(rows, root, child.recordIdGuess, relative, added);
      assert CollectedChild(rows, child, base, w) == CollectedDirectory(rows, child.recordIdGuess, relative, added);
    }
  }

  lemma AddedIsEntered(w: Walk, root: nat, child: StoredRecord, relative: Path)
    requires AreEntered(w.items, root, w.visited)
    ensures var added := Added(w, child, relative);
            && AreEntered(added.items, root,
                          added.visited + if child.isDirectory then {child.recordIdGuess} else {})
            && (child.isDirectory && child.recordIdGuess !in added.visited ==>
                  IsHome(added.items, root, child.recordIdGuess, relative))
  {
    if child.isDirectory && child.recordIdGuess !in w.visited {
      NewDirectoryIsHome(w, root, child, relative);
    }
    if !child.isDirectory {
      assert w.visited + {} == w.visited;
    }
  }

  lemma NewDirectoryIsHome(w: Walk, root: nat, child: StoredRecord, relative: Path)
    requires AreEntered(w.items, root, w.visited) && child.isDirectory && child.recordIdGuess !in w.visited
    ensures IsHome(w.items + [Item(child, relative)], root, child.recordIdGuess, relative)
  {
    var all := w.items + [Item(child, relative)];
    assert IsFirst(all, |w.items|);
  }

  lemma {:induction false} ListPlaces(rows: set<StoredRecord>, root: nat, list: seq<StoredRecord>, directory: nat,
                                      base: Path, w: Walk)
    requires (forall c :: c in list ==> c in rows && c.parentRef == directory)
    requires CollectedList(rows, list, base, w).Some?
    requires ArePlaced(w.items, root) && IsHome(w.items, root, directory, base) && AreEntered(w.items, root, w.visited)
    ensures var r := CollectedList(rows, list, base, w).value;
            w.items <= r.items && ArePlaced(r.items, root) && AreEntered(r.items, root, r.visited)
    decreases RecordIds(rows) - w.visited, 2 + |list|
  {
    if list != [] {
      ListStep(rows, list, base, w);
      var next := CollectedChild(rows, list[0], base, w).value;
      ChildPlaces(rows, root, list[0], directory, base, w);
      HomeStays(w.items, next.items, root, directory, base);
      ListPlaces(rows, root, list[1..], directory, base, next);
    }
  }

  /** Main result: every item has its own sanitised name, and lies at the top if its row names the root as its parent,
      and otherwise in the first directory item with the number that its row names. */
  lemma ItemsLieInTheirParents(rows: set<StoredRecord>, root: nat)
    requires CollectedTree(rows, root).Some?
    ensures ArePlaced(CollectedTree(rows, root).value.items, root)
  {
    DirectoryPlaces(rows, root, root, [], START);
  }

  //
  // When a collection fails
  //

  /** No two surviving rows of the directory get names that are equal but for case. */
  ghost predicate NoClash(rows: set<StoredRecord>, n: nat) {
    forall p, q :: p in Children(rows, n) && q in Children(rows, n) && p != q ==>
                     !SameNameButCase(Sanitized(p.name), Sanitized(q.name))
  }

  ghost predicate NoClashes(rows: set<StoredRecord>, root: nat) {
    forall n :: Reachable(rows, root, n) ==> NoClash(rows, n)
  }

  /** Every key was entered for an item, and items are named after their rows. */
  ghost predicate IsSound(w: Walk) {
    WellFormed(w) && AreNamed(w.items) && KeysAreItems(w.entries, w.items)
  }

  predicate LiesAt(item: Item, base: Path) {
    item.path != [] && SamePathButCase(Parent(item.path), base)
  }

  /** What lies at `base`, or at the same path but for case, are children of `directory` that are not in the list. */
  ghost predicate IsFreeFor(items: seq<Item>, rows: set<StoredRecord>, directory: nat, base: Path,
                            list: seq<StoredRecord>) {
    forall i :: 0 <= i < |items| && LiesAt(items[i], base) ==>
                  items[i].record in Children(rows, directory) && items[i].record !in list
  }

  lemma SamePathParts(p: Path, q: Path)
    requires p != [] && q != []
    ensures SamePathButCase(p, q) <==>
            SamePathButCase(Parent(p), Parent(q)) && SameNameButCase(p[|p| - 1], q[|q| - 1])
  {
    if SamePathButCase(Parent(p), Parent(q)) && SameNameButCase(p[|p| - 1], q[|q| - 1]) {
      forall i | 0 <= i < |p|
        ensures SameNameButCase(p[i], q[i])
      {
        assert i < |p| - 1 ==> SameNameButCase(Parent(p)[i], Parent(q)[i]);
      }
    }
    if SamePathButCase(p, q) {
      forall i | 0 <= i < |Parent(p)|
        ensures SameNameButCase(Parent(p)[i], Parent(q)[i])
      {
        assert SameNameButCase(p[i], q[i]);
      }
    }
  }

  /** An item with the key of a path has the same path but for case. */
  lemma TakenKey(w: Walk, path: Path) returns (i: nat)
    requires IsSound(w) && IsPath(path) && CollisionKey(path) in w.entries
    ensures i < |w.items| && w.items[i].path != [] && SamePathButCase(w.items[i].path, path)
  {
    i :| 0 <= i < |w.items| && CollisionKey(w.items[i].path) == CollisionKey(path);
    assert LinkedAt(w.items, i);
    KeysCollideIff(w.items[i].path, path);
  }

  lemma KeyIsFree(rows: set<StoredRecord>, directory: nat, base: Path, list: seq<StoredRecord>, w: Walk)
    requires list != [] && list[0] in Children(rows, directory) && IsSound(w) && IsPath(base)
    requires IsFreeFor(w.items, rows, directory, base, list) && NoClash(rows, directory)
    ensures CollisionKey(PathBelow(base, list[0])) !in w.entries
  {
    var relative := PathBelow(base, list[0]);
    SanitizedIsComponent(list[0].name);
    assert Parent(relative) == base;
    if CollisionKey(relative) in w.entries {
      var i := TakenKey(w, relative);
      assert IsNamed(w.items[i]);
      SamePathParts(w.items[i].path, relative);
      assert LiesAt(w.items[i], base);
    }
  }

  /** An item that does not lie at the top lies in an earlier item. */
  lemma HasParentItem(items: seq<Item>, i: nat, relative: Path) returns (j: nat)
    requires Linked(items) && i < |items| && relative != [] && LiesAt(items[i], relative)
    ensures j < i && items[j].path != [] && SamePathButCase(items[j].path, relative)
  {
    assert LinkedAt(items, i);
    assert |Parent(items[i].path)| == |relative|;
    j :| ParentOf(items, j, i);
    assert LinkedAt(items, j);
  }

  /** An item with the same path but for case has taken the key. */
  lemma KeyIsTaken(w: Walk, j: nat, relative: Path)
    requires IsSound(w) && IsPath(relative) && j < |w.items| && SamePathButCase(w.items[j].path, relative)
    ensures CollisionKey(relative) in w.entries
  {
    assert LinkedAt(w.items, j);
    KeysCollideIff(w.items[j].path, relative);
    PathIsTaken(w, j);
  }

  /** Below a path that has just been added there is nothing yet. */
  lemma NothingLiesAtNew(w: Walk, child: StoredRecord, relative: Path, i: nat)
    requires IsSound(w) && IsPath(relative) && relative != [] && CollisionKey(relative) !in w.entries
    requires i <= |w.items| && Linked(w.items + [Item(child, relative)])
    ensures !LiesAt((w.items + [Item(child, relative)])[i], relative)
  {
    var all := w.items + [Item(child, relative)];
    if LiesAt(all[i], relative) {
      var j := HasParentItem(all, i, relative);
      assert all[j] == w.items[j];
      KeyIsTaken(w, j, relative);
    }
  }

  ghost predicate KeysAreItems(entries: map<seq<byte>, Entry>, items: seq<Item>) {
    forall key :: key in entries ==> exists i :: 0 <= i < |items| && CollisionKey(items[i].path) == key
  }

  lemma AddedKeysAreItems(w: Walk, child: StoredRecord, relative: Path, key: seq<byte>)
    requires KeysAreItems(w.entries, w.items) && key == CollisionKey(relative)
    ensures KeysAreItems(Added(w, child, relative).entries, w.items + [Item(child, relative)])
  {
    var all := w.items + [Item(child, relative)];
    assert all[|w.items|].path == relative;
    forall k | k in w.entries
      ensures exists i :: 0 <= i < |all| && CollisionKey(all[i].path) == k
    {
      var i :| 0 <= i < |w.items| && CollisionKey(w.items[i].path) == k;
      assert all[i] == w.items[i];
    }
  }

  /** A child at a free key keeps the walk sound. */
  lemma AddedIsSound(w: Walk, child: StoredRecord, base: Path)
    requires IsSound(w) && IsBase(base, w.items) && CollisionKey(PathBelow(base, child)) !in w.entries
    ensures IsSound(Added(w, child, PathBelow(base, child))) && IsPath(PathBelow(base, child))
  {
    PathBelowIsPath(base, child);
    AddedIsNamed(w.items, child, base);
    AddedIsLinked(w.items, child, base);
    AddedIsKeyed(w, child, PathBelow(base, child));
    AddedKeysAreItems(w, child, PathBelow(base, child), CollisionKey(PathBelow(base, child)));
  }

  lemma PathBelowIsPath(base: Path, child: StoredRecord)
    requires IsPath(base)
    ensures IsPath(PathBelow(base, child))
  {
    SanitizedIsComponent(child.name);
  }

  ghost predicate AreNamed(items: seq<Item>) {
    forall i :: 0 <= i < |items| ==> IsNamed(items[i])
  }

  lemma AddedIsNamed(items: seq<Item>, child: StoredRecord, base: Path)
    requires AreNamed(items)
    ensures AreNamed(items + [Item(child, PathBelow(base, child))])
  {
  }

  /** What the walk has become: sound, longer, and the new items lie below `base`. */
  ghost predicate HasGrown(w: Walk, n: nat, base: Path, r: Option<Walk>) {
    r.Some? && IsSound(r.value) && w.items <= r.value.items && n <= |r.value.items| && AllBelow(r.value.items, n, base)
  }

  /** After the subtree of the first sibling, the place is free for the others. */
  lemma StillFree(items: seq<Item>, rows: set<StoredRecord>, directory: nat, base: Path, list: seq<StoredRecord>,
                  all: seq<Item>)
    requires list != [] && NoDuplicates(list) && list[0] in Children(rows, directory)
    requires IsFreeFor(items, rows, directory, base, list)
    requires items + [Item(list[0], PathBelow(base, list[0]))] <= all
    requires AllBelow(all, |items| + 1, PathBelow(base, list[0]))
    ensures IsFreeFor(all, rows, directory, base, list[1..])
  {
    forall i | 0 <= i < |all| && LiesAt(all[i], base)
      ensures all[i].record in Children(rows, directory) && all[i].record !in list[1..]
    {
      if i < |items| {
        assert all[i] == items[i];
      } else if i == |items| {
        assert all[i].record == list[0];
      }
    }
  }

  lemma {:induction false} DirectorySucceeds(rows: set<StoredRecord>, root: nat, directory: nat, base: Path, w: Walk)
    requires NoClashes(rows, root) && Reachable(rows, root, directory) && IsSound(w) && IsBase(base, w.items)
    requires forall i :: 0 <= i < |w.items| ==> !LiesAt(w.items[i], base)
    ensures HasGrown(w, |w.items|, base, CollectedDirectory(rows, directory, base, w))
    decreases RecordIds(rows) + {directory} - w.visited, 0
  {
    if directory !in w.visited {
      assert directory in RecordIds(rows) + {directory} - w.visited;
      var list := ChildList(rows, directory);
      assert IsFreeFor(w.items, rows, directory, base, list);
      ListSucceeds(rows, root, list, directory, base, Entered(w, directory));
    }
  }

  lemma {:induction false} ChildSucceeds(rows: set<StoredRecord>, root: nat, child: StoredRecord, directory: nat,
                                         base: Path, w: Walk)
    requires NoClashes(rows, root) && Reachable(rows, root, directory) && child in Children(rows, directory)
    requires child in rows && IsSound(w) && IsBase(base, w.items)
    requires CollisionKey(PathBelow(base, child)) !in w.entries
    ensures HasGrown(Added(w, child, PathBelow(base, child)), |w.items| + 1, PathBelow(base, child),
                     CollectedChild(rows, child, base, w))
    decreases RecordIds(rows) - w.visited, 1
  {
    var relative := PathBelow(base, child);
    var added := Added(w, child, relative);
    AddedIsSound(w, child, base);
    AddedIsLinked(w.items, child, base);
    if child.isDirectory {
      forall i | 0 <= i < |added.items|
        ensures !LiesAt(added.items[i], relative)
      {
        NothingLiesAtNew(w, child, relative, i);
      }
      ReachableNext(rows, root, directory, child);
      DirectorySucceeds(rows, root, child.recordIdGuess, relative, added);
    }
  }

  lemma ReachableNext(rows: set<StoredRecord>, root: nat, directory: nat, child: StoredRecord)
    requires Reachable(rows, root, directory) && child in Children(rows, directory) && child.isDirectory
    ensures Reachable(rows, root, child.recordIdGuess)
  {
    var p :| Connects(rows, p, root, directory);
    var q := p + [child.recordIdGuess];
    forall i | 0 <= i < |q| - 1
      ensures Edge(rows, q[i], q[i + 1])
    {
      assert i < |p| - 1 ==> Edge(rows, p[i], p[i + 1]);
    }
    assert Connects(rows, q, root, child.recordIdGuess);
  }

  lemma {:induction false} ListSucceeds(rows: set<StoredRecord>, root: nat, list: seq<StoredRecord>, directory: nat,
                                        base: Path, w: Walk)
    requires forall c :: c in list ==> c in rows && c in Children(rows, directory)
    requires NoClashes(rows, root) && Reachable(rows, root, directory) && IsSound(w) && IsBase(base, w.items)
    requires NoDuplicates(list) && IsFreeFor(w.items, rows, directory, base, list)
    ensures HasGrown(w, |w.items|, base, CollectedList(rows, list, base, w))
    decreases RecordIds(rows) - w.visited, 2 + |list|
  {
    if list != [] {
      ListStep(rows, list, base, w);
      FirstAndRest(list);
      KeyIsFree(rows, directory, base, list, w);
      ChildSucceeds(rows, root, list[0], directory, base, w);
      var next := CollectedChild(rows, list[0], base, w).value;
      LongerKeepsLinks(w.items, next.items, base);
      StillFree(w.items, rows, directory, base, list, next.items);
      ListSucceeds(rows, root, list[1..], directory, base, next);
      AllBelowJoin(w.items, next.items, CollectedList(rows, list, base, w).value.items, list[0], base);
    }
  }

  /** Two siblings with names that are equal but for case cannot both have been collected. */
  lemma ClashIsNotCollected(rows: set<StoredRecord>, root: nat, n: nat, p: StoredRecord, q: StoredRecord)
    requires Reachable(rows, root, n) && p in Children(rows, n) && q in Children(rows, n) && p != q
    requires SameNameButCase(Sanitized(p.name), Sanitized(q.name))
    ensures CollectedTree(rows, root).None?
  {
    if CollectedTree(rows, root).Some? {
      var items := CollectedTree(rows, root).value.items;
      assert p in RecordsOf(items) && q in RecordsOf(items) by { ItemsAreChildrenOnce(rows, root); }
      var i := ItemOf(items, p);
      var j := ItemOf(items, q);
      CollectedAreApart(rows, root, if i < j then i else j, if i < j then j else i);
    }
  }

  /** Two items of one directory have names that differ in more than case. */
  lemma CollectedAreApart(rows: set<StoredRecord>, root: nat, i: nat, j: nat)
    requires CollectedTree(rows, root).Some?
    requires var items := CollectedTree(rows, root).value.items;
             i < j < |items| && items[i].record.parentRef == items[j].record.parentRef
    ensures var items := CollectedTree(rows, root).value.items;
            && !SameNameButCase(Sanitized(items[i].record.name), Sanitized(items[j].record.name))
            && !SameNameButCase(Sanitized(items[j].record.name), Sanitized(items[i].record.name))
  {
    ItemsLieInTheirParents(rows, root);
    PathsAreDistinctAndNested(rows, root);
    ClashingItems(CollectedTree(rows, root).value.items, root, i, j);
  }

  lemma ClashingItems(items: seq<Item>, root: nat, i: nat, j: nat)
    requires i < j < |items| && ArePlaced(items, root) && items[i].record.parentRef == items[j].record.parentRef
    requires items[i].path != [] && items[j].path != [] && !SamePathButCase(items[i].path, items[j].path)
    ensures !SameNameButCase(Sanitized(items[i].record.name), Sanitized(items[j].record.name))
    ensures !SameNameButCase(Sanitized(items[j].record.name), Sanitized(items[i].record.name))
  {
    assert IsPlaced(items, root, items[i]) && IsPlaced(items, root, items[j]);
    HomeIsUnique(items, root, items[i].record.parentRef, Parent(items[i].path), Parent(items[j].path));
    SameParents(items[i].path, items[j].path);
  }

  lemma SameParents(p: Path, q: Path)
    requires p != [] && q != [] && Parent(p) == Parent(q) && !SamePathButCase(p, q)
    ensures !SameNameButCase(p[|p| - 1], q[|q| - 1]) && !SameNameButCase(q[|q| - 1], p[|p| - 1])
  {
    SamePathParts(p, q);
    assert forall a: byte, b: byte :: SameButCase(a, b) == SameButCase(b, a);
  }

  lemma ItemOf(items: seq<Item>, record: StoredRecord) returns (i: nat)
    requires record in RecordsOf(items)
    ensures i < |items| && items[i].record == record
  {
    i :| 0 <= i < |items| && RecordsOf(items)[i] == record;
  }

  /** Main result: collecting fails if and only if, in some directory that can be reached from the root, two surviving
      rows get sanitised names that are equal but for the case of ASCII letters. */
  lemma CollectionFailsIff(rows: set<StoredRecord>, root: nat)
    ensures CollectedTree(rows, root).None? <==>
            exists n, p, q :: Reachable(rows, root, n) && p in Children(rows, n) && q in Children(rows, n) && p != q
                              && SameNameButCase(Sanitized(p.name), Sanitized(q.name))
  {
    if NoClashes(rows, root) {
      ReachableSelf(rows, root);
      DirectorySucceeds(rows, root, root, [], START);
    } else {
      var n :| Reachable(rows, root, n) && !NoClash(rows, n);
      var p, q :| p in Children(rows, n) && q in Children(rows, n) && p != q
                  && SameNameButCase(Sanitized(p.name), Sanitized(q.name));
      ClashIsNotCollected(rows, root, n, p, q);
    }
  }
}
