/** The order of siblings in a collection: inside one directory, items come in the order of their original names. */
module SiblingOrder {
  import opened Names
  import opened Siblings
  import opened CollectTree
  import opened TreeProperties

  function Parent(path: Path): Path
    requires path != []
  {
    path[..|path| - 1]
  }

  predicate LiesIn(item: Item, base: Path) {
    item.path != [] && Parent(item.path) == base
  }

  /** Items of one directory are sorted as the comparator demands, and named after their records. */
  ghost predicate InOrder(items: seq<Item>) {
    && (forall i :: 0 <= i < |items| ==> IsNamed(items[i]))
    && (forall i, j :: 0 <= i < j < |items| && items[i].path != [] && LiesIn(items[j], Parent(items[i].path)) ==>
                         !RowLess(items[j].record, items[i].record))
  }

  /** What comes between a directory and an item inside it lies inside it, too. */
  ghost predicate SubtreesTogether(items: seq<Item>) {
    forall j, m, i :: 0 <= j < m < i < |items| ==> StaysInside(items, j, m, i)
  }

  predicate StaysInside(items: seq<Item>, j: int, m: int, i: int)
    requires 0 <= j < m < i < |items|
  {
    items[j].path < items[i].path ==> items[j].path <= items[m].path
  }

  /** Everything that follows an item on the way to `base` lies inside it. */
  ghost predicate OpenAt(items: seq<Item>, base: Path) {
    forall j, m :: 0 <= j < m < |items| && items[j].path <= base ==> items[j].path <= items[m].path
  }

  predicate IsNamed(item: Item) {
    item.path != [] && item.path[|item.path| - 1] == Sanitized(item.record.name)
  }

  ghost predicate NothingBelow(items: seq<Item>, base: Path) {
    forall i :: 0 <= i < |items| ==> !(base < items[i].path)
  }

  /** Everything from position `n` on lies below `base`. */
  ghost predicate AllBelow(items: seq<Item>, n: nat, base: Path) {
    forall i :: n <= i < |items| ==> base < items[i].path
  }

  /** No row of the list comes before an item of the directory. */
  ghost predicate Precede(items: seq<Item>, base: Path, list: seq<StoredRecord>) {
    forall i, k :: 0 <= i < |items| && LiesIn(items[i], base) && 0 <= k < |list| ==> !RowLess(list[k], items[i].record)
  }

  lemma PathIsTaken(w: Walk, i: nat)
    requires Keyed(w) && i < |w.items|
    ensures CollisionKey(w.items[i].path) in w.entries
  {
  }

  lemma PrefixIsTaken(w: Walk, relative: Path, i: nat)
    requires WellFormed(w) && relative != [] && i < |w.items| && relative < w.items[i].path
    ensures CollisionKey(relative) in w.entries
  {
    var j := PrefixIsDirectory(w.items, i, |relative|);
    assert w.items[j].path == relative;
    PathIsTaken(w, j);
  }

  /** A path that no item has yet has nothing below it either. */
  lemma FreePathIsEmpty(w: Walk, relative: Path)
    requires WellFormed(w) && relative != [] && CollisionKey(relative) !in w.entries
    ensures NothingBelow(w.items, relative)
  {
    forall i | 0 <= i < |w.items|
      ensures !(relative < w.items[i].path)
    {
      if relative < w.items[i].path {
        PrefixIsTaken(w, relative, i);
      }
    }
  }

  /** Adding the next child of a directory. */
  lemma AddedInOrder(items: seq<Item>, child: StoredRecord, base: Path)
    requires InOrder(items) && Precede(items, base, [child])
    ensures InOrder(items + [Item(child, PathBelow(base, child))])
  {
    var relative := PathBelow(base, child);
    var all := items + [Item(child, relative)];
    assert Parent(relative) == base;
    forall i, j | 0 <= i < j < |all| && all[i].path != [] && LiesIn(all[j], Parent(all[i].path))
      ensures !RowLess(all[j].record, all[i].record)
    {
      if j == |items| {
        assert LiesIn(items[i], base);
        assert !RowLess([child][0], items[i].record);
      } else {
        assert all[i] == items[i] && all[j] == items[j];
      }
    }
  }

  /** The other children still come after everything in the directory. */
  lemma PrecedeRest(items: seq<Item>, n: nat, base: Path, list: seq<StoredRecord>, all: seq<Item>)
    requires list != [] && SortedRows(list) && Precede(items, base, list)
    requires items + [Item(list[0], PathBelow(base, list[0]))] <= all && n == |items| + 1
    requires AllBelow(all, n, PathBelow(base, list[0]))
    ensures Precede(all, base, list[1..])
  {
    forall i, k | 0 <= i < |all| && LiesIn(all[i], base) && 0 <= k < |list[1..]|
      ensures !RowLess(list[1..][k], all[i].record)
    {
      assert list[1..][k] == list[k + 1];
      if i < |items| {
        assert all[i] == items[i];
      } else if i == |items| {
        assert all[i].record == list[0];
      }
    }
  }

  lemma OnTheWayTo(base: Path, path: Path, prefix: Path)
    requires path != [] && Parent(path) == base && prefix <= path && prefix != path
    ensures prefix <= base
  {
    assert prefix == path[..|prefix|];
  }

  /** Adding a child of the directory that is being walked. */
  lemma AddedTogether(items: seq<Item>, item: Item, base: Path)
    requires SubtreesTogether(items) && OpenAt(items, base) && item.path != [] && Parent(item.path) == base
    requires forall i :: 0 <= i < |items| ==> items[i].path != item.path
    ensures SubtreesTogether(items + [item])
  {
    var all := items + [item];
    forall j, m, i | 0 <= j < m < i < |all|
      ensures StaysInside(all, j, m, i)
    {
      assert all[j] == items[j] && all[m] == items[m];
      if i < |items| {
        assert StaysInside(items, j, m, i) && all[i] == items[i];
      } else if all[j].path < all[i].path {
        OnTheWayTo(base, item.path, items[j].path);
      }
    }
  }

  lemma AddedIsOpen(items: seq<Item>, item: Item, base: Path)
    requires OpenAt(items, base) && item.path != [] && Parent(item.path) == base
    requires forall i :: 0 <= i < |items| ==> items[i].path != item.path
    ensures OpenAt(items + [item], item.path)
  {
    var all := items + [item];
    forall j, m | 0 <= j < m < |all| && all[j].path <= item.path
      ensures all[j].path <= all[m].path
    {
      assert all[j] == items[j];
      OnTheWayTo(base, item.path, items[j].path);
      if m < |items| { assert all[m] == items[m]; }
    }
  }

  /** After the subtree of a child, the directory is still being walked. */
  lemma StillOpen(items: seq<Item>, item: Item, base: Path, all: seq<Item>)
    requires OpenAt(items, base) && item.path != [] && Parent(item.path) == base
    requires items + [item] <= all && AllBelow(all, |items| + 1, item.path)
    ensures OpenAt(all, base)
  {
    forall j, m | 0 <= j < m < |all| && all[j].path <= base
      ensures all[j].path <= all[m].path
    {
      assert all[|items|] == (items + [item])[|items|];
      assert j < |items| ==> all[j] == items[j];
      assert m < |items| ==> all[m] == items[m];
      if m >= |items| {
        assert item.path <= all[m].path;
        assert base == item.path[..|base|] == all[m].path[..|base|];
      }
    }
  }

  lemma PathsDiffer(w: Walk, relative: Path)
    requires Keyed(w) && CollisionKey(relative) !in w.entries
    ensures forall i :: 0 <= i < |w.items| ==> w.items[i].path != relative
  {
    forall i | 0 <= i < |w.items|
      ensures w.items[i].path != relative
    {
      PathIsTaken(w, i);
    }
  }

  /** What lies below a child of a directory lies below the directory. */
  lemma AllBelowJoin(items: seq<Item>, next: seq<Item>, all: seq<Item>, child: StoredRecord, base: Path)
    requires items + [Item(child, PathBelow(base, child))] <= next <= all
    requires AllBelow(next, |items| + 1, PathBelow(base, child)) && AllBelow(all, |next|, base)
    ensures items <= all && AllBelow(all, |items|, base)
  {
    var relative := PathBelow(base, child);
    forall i | |items| <= i < |all|
      ensures base < all[i].path
    {
      if i == |items| {
        assert next[i] == (items + [Item(child, relative)])[i] && all[i] == next[i];
      } else if i < |next| {
        assert all[i] == next[i] && relative < next[i].path;
        assert base == relative[..|base|] == next[i].path[..|base|];
      }
    }
  }

  lemma PrecedeFirst(items: seq<Item>, base: Path, list: seq<StoredRecord>)
    requires list != [] && Precede(items, base, list)
    ensures Precede(items, base, [list[0]])
  {
  }

  lemma {:induction false} DirectoryInOrder(rows: set<StoredRecord>, directory: nat, base: Path, w: Walk)
    requires WellFormed(w) && IsBase(base, w.items) && InOrder(w.items) && NothingBelow(w.items, base)
    requires SubtreesTogether(w.items) && OpenAt(w.items, base)
    requires CollectedDirectory(rows, directory, base, w).Some?
    ensures var r := CollectedDirectory(rows, directory, base, w).value;
            && InOrder(r.items) && SubtreesTogether(r.items)
            && w.items <= r.items && AllBelow(r.items, |w.items|, base)
    decreases RecordIds(rows) + {directory} - w.visited, 0
  {
    if directory !in w.visited {
      assert directory in RecordIds(rows) + {directory} - w.visited;
      ListInOrder(rows, ChildList(rows, directory), base, Entered(w, directory));
    }
  }

  lemma ItemAdded(items: seq<Item>, child: StoredRecord, base: Path)
    requires InOrder(items) && Precede(items, base, [child]) && SubtreesTogether(items) && OpenAt(items, base)
    requires forall i :: 0 <= i < |items| ==> items[i].path != PathBelow(base, child)
    ensures var all := items + [Item(child, PathBelow(base, child))];
            InOrder(all) && SubtreesTogether(all) && OpenAt(all, PathBelow(base, child))
  {
    assert Parent(PathBelow(base, child)) == base;
    AddedInOrder(items, child, base);
    AddedTogether(items, Item(child, PathBelow(base, child)), base);
    AddedIsOpen(items, Item(child, PathBelow(base, child)), base);
  }

  lemma NothingBelowAdded(items: seq<Item>, item: Item)
    requires NothingBelow(items, item.path)
    ensures NothingBelow(items + [item], item.path)
  {
  }

  /** A child was added, and its own directory can be walked. */
  lemma ChildIsReady(w: Walk, child: StoredRecord, base: Path)
    requires WellFormed(w) && IsBase(base, w.items) && CollisionKey(PathBelow(base, child)) !in w.entries
    ensures var relative := PathBelow(base, child);
            var added := Added(w, child, relative);
            && WellFormed(added) && (child.isDirectory ==> IsBase(relative, added.items))
            && NothingBelow(added.items, relative)
    ensures forall i :: 0 <= i < |w.items| ==> w.items[i].path != PathBelow(base, child)
  {
    var relative := PathBelow(base, child);
    PathsDiffer(w, relative);
    AddedIsLinked(w.items, child, base);
    AddedIsKeyed(w, child, relative);
    FreePathIsEmpty(w, relative);
    NothingBelowAdded(w.items, Item(child, relative));
  }

  lemma {:induction false} ChildInOrder(rows: set<StoredRecord>, child: StoredRecord, base: Path, w: Walk)
    requires child in rows && WellFormed(w) && IsBase(base, w.items) && InOrder(w.items) &&
      Precede(w.items, base, [child])
    requires SubtreesTogether(w.items) && OpenAt(w.items, base)
    requires CollectedChild(rows, child, base, w).Some?
    ensures var r, relative := CollectedChild(rows, child, base, w).value, PathBelow(base, child);
            && InOrder(r.items) && SubtreesTogether(r.items) && OpenAt(r.items, base)
            && w.items + [Item(child, relative)] <= r.items
            && AllBelow(r.items, |w.items| + 1, relative)
    decreases RecordIds(rows) - w.visited, 1
  {
    var relative := PathBelow(base, child);
    assert Parent(relative) == base;
    ChildIsReady(w, child, base);
    ItemAdded(w.items, child, base);
    if child.isDirectory {
      DirectoryInOrder(rows, child.recordIdGuess, relative, Added(w, child, relative));
    }
    StillOpen(w.items, Item(child, relative), base, CollectedChild(rows, child, base, w).value.items);
  }

  lemma {:induction false} ListInOrder(rows: set<StoredRecord>, list: seq<StoredRecord>, base: Path, w: Walk)
    requires (forall c :: c in list ==> c in rows) && SortedRows(list)
    requires WellFormed(w) && IsBase(base, w.items) && InOrder(w.items) && Precede(w.items, base, list)
    requires SubtreesTogether(w.items) && OpenAt(w.items, base)
    requires CollectedList(rows, list, base, w).Some?
    ensures var r := CollectedList(rows, list, base, w).value;
            InOrder(r.items) && SubtreesTogether(r.items) && w.items <= r.items && AllBelow(r.items, |w.items|, base)
    decreases RecordIds(rows) - w.visited, 2 + |list|
  {
    if list != [] {
      var next := CollectedChild(rows, list[0], base, w).value;
      PrecedeFirst(w.items, base, list);
      ChildInOrder(rows, list[0], base, w);
      ChildWellFormed(rows, list[0], base, w);
      LongerKeepsLinks(w.items, next.items, base);
      PrecedeRest(w.items, |w.items| + 1, base, list, next.items);
      ListInOrder(rows, list[1..], base, next);
      AllBelowJoin(w.items, next.items, CollectedList(rows, list[1..], base, next).value.items, list[0], base);
    }
  }

  /** Main result: inside one directory, items come in the order of their original names, directories first; and the
      items inside a directory follow it without a gap. */
  lemma SiblingsInOrder(rows: set<StoredRecord>, root: nat)
    requires CollectedTree(rows, root).Some?
    ensures InOrder(CollectedTree(rows, root).value.items)
    ensures SubtreesTogether(CollectedTree(rows, root).value.items)
  {
    DirectoryInOrder(rows, root, [], START);
  }
}
