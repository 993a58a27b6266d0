/** What a successful collection contains: exactly the reachable directories, each child once, and well-formed paths. */
module TreeProperties {
  import opened Names
  import opened Siblings
  import opened CollectTree

  //
  // Reachability
  //

  /** `b` is a directory child of `a`. */
  ghost predicate Edge(rows: set<StoredRecord>, a: nat, b: nat) {
    exists c :: c in Children(rows, a) && c.isDirectory && c.recordIdGuess == b
  }

  ghost predicate IsTrail(rows: set<StoredRecord>, p: seq<nat>) {
    p != [] && forall i :: 0 <= i < |p| - 1 ==> Edge(rows, p[i], p[i + 1])
  }

  ghost predicate Connects(rows: set<StoredRecord>, p: seq<nat>, a: nat, b: nat) {
    IsTrail(rows, p) && p[0] == a && p[|p| - 1] == b
  }

  ghost predicate Reachable(rows: set<StoredRecord>, a: nat, b: nat) {
    exists p :: Connects(rows, p, a, b)
  }

  lemma ReachableSelf(rows: set<StoredRecord>, a: nat)
    ensures Reachable(rows, a, a)
  {
    assert Connects(rows, [a], a, a);
  }

  lemma ReachableThrough(rows: set<StoredRecord>, a: nat, b: nat, c: nat)
    requires Edge(rows, a, b) && Reachable(rows, b, c)
    ensures Reachable(rows, a, c)
  {
    var p :| Connects(rows, p, b, c);
    var q := [a] + p;
    forall i | 0 <= i < |q| - 1
      ensures Edge(rows, q[i], q[i + 1])
    {
      if i > 0 { assert q[i] == p[i - 1] && q[i + 1] == p[i]; }
    }
    assert Connects(rows, q, a, c);
  }

  /** Everything the walk from `w` to `r` entered is reachable from `start`, and its directory children are entered. */
  ghost predicate Explores(rows: set<StoredRecord>, start: nat, w: Walk, r: Walk) {
    && w.visited <= r.visited
    && (forall n :: n in r.visited && n !in w.visited ==> Reachable(rows, start, n))
    && (forall n, m :: n in r.visited && n !in w.visited && Edge(rows, n, m) ==> m in r.visited)
  }

  lemma {:induction false} DirectoryExplores(rows: set<StoredRecord>, directory: nat, base: Path, w: Walk)
    requires CollectedDirectory(rows, directory, base, w).Some?
    ensures Explores(rows, directory, w, CollectedDirectory(rows, directory, base, w).value)
    decreases RecordIds(rows) + {directory} - w.visited, 0
  {
    if directory !in w.visited {
      assert directory in RecordIds(rows) + {directory} - w.visited;
      var list := ChildList(rows, directory);
      ListExplores(rows, list, directory, base, Entered(w, directory));
      var r := CollectedDirectory(rows, directory, base, w).value;
      ReachableSelf(rows, directory);
      forall m | Edge(rows, directory, m)
        ensures m in r.visited
      {
        var c :| c in Children(rows, directory) && c.isDirectory && c.recordIdGuess == m;
        assert c in Elements(list);
      }
    }
  }

  lemma {:induction false} ChildExplores(rows: set<StoredRecord>, child: StoredRecord, directory: nat, base: Path,
                                         w: Walk)
    requires child in rows && child in Children(rows, directory) && CollectedChild(rows, child, base, w).Some?
    ensures Explores(rows, directory, w, CollectedChild(rows, child, base, w).value)
    ensures child.isDirectory ==> child.recordIdGuess in CollectedChild(rows, child, base, w).value.visited
    decreases RecordIds(rows) - w.visited, 1
  {
    if child.isDirectory {
      var relative := PathBelow(base, child);
      DirectoryExplores(rows, child.recordIdGuess, relative, Added(w, child, relative));
      var r := CollectedChild(rows, child, base, w).value;
      assert Edge(rows, directory, child.recordIdGuess);
      forall n | n in r.visited && n !in w.visited
        ensures Reachable(rows, directory, n)
      {
        ReachableThrough(rows, directory, child.recordIdGuess, n);
      }
    }
  }

  lemma {:induction false} ListExplores(rows: set<StoredRecord>, list: seq<StoredRecord>, directory: nat, base: Path,
                                        w: Walk)
    requires forall c :: c in list ==> c in rows && c in Children(rows, directory)
    requires CollectedList(rows, list, base, w).Some?
    ensures Explores(rows, directory, w, CollectedList(rows, list, base, w).value)
    ensures forall c :: c in list && c.isDirectory ==>
      c.recordIdGuess in CollectedList(rows, list, base, w).value.visited
    decreases RecordIds(rows) - w.visited, 2 + |list|
  {
    if list != [] {
      var next := CollectedChild(rows, list[0], base, w).value;
      ChildExplores(rows, list[0], directory, base, w);
      ListExplores(rows, list[1..], directory, base, next);
    }
  }

  lemma {:induction false} TrailStaysInside(rows: set<StoredRecord>, visited: set<nat>, p: seq<nat>, k: nat)
    requires IsTrail(rows, p) && p[0] in visited && k < |p|
    requires forall n, m :: n in visited && Edge(rows, n, m) ==> m in visited
    ensures p[k] in visited
  {
    if k > 0 {
      TrailStaysInside(rows, visited, p, k - 1);
      assert Edge(rows, p[k - 1], p[k]);
    }
  }

  /** Main result: the directories entered are exactly those reachable from the root by directory-child edges,
      cycles and self-parents included. */
  lemma VisitedAreReachable(rows: set<StoredRecord>, root: nat)
    requires CollectedTree(rows, root).Some?
    ensures forall n :: n in CollectedTree(rows, root).value.visited <==> Reachable(rows, root, n)
  {
    var r := CollectedTree(rows, root).value;
    DirectoryExplores(rows, root, [], START);
    forall n | Reachable(rows, root, n)
      ensures n in r.visited
    {
      var p :| Connects(rows, p, root, n);
      TrailStaysInside(rows, r.visited, p, |p| - 1);
    }
  }

  //
  // Contents
  //

  function RecordsOf(items: seq<Item>): (records: seq<StoredRecord>)
    ensures |records| == |items| && forall i :: 0 <= i < |items| ==> records[i] == items[i].record
  {
    seq(|items|, i requires 0 <= i < |items| => items[i].record)
  }

  /** `c` is a child of a directory entered between `w` and `r`. */
  ghost predicate ChildOfEntered(rows: set<StoredRecord>, w: Walk, r: Walk, c: StoredRecord) {
    c.parentRef in r.visited && c.parentRef !in w.visited && c in Children(rows, c.parentRef)
  }

  /** The items added between `w` and `r`, without repetition, are `own` and the children of the entered directories. */
  ghost predicate AddsExactly(rows: set<StoredRecord>, w: Walk, r: Walk, own: set<StoredRecord>) {
    && w.items <= r.items && w.visited <= r.visited
    && var added := RecordsOf(r.items[|w.items|..]);
       && NoDuplicates(added)
       && forall c :: c in added <==> c in own || ChildOfEntered(rows, w, r, c)
  }

  lemma AddsCompose(rows: set<StoredRecord>, w: Walk, m: Walk, r: Walk, first: set<StoredRecord>,
                    second: set<StoredRecord>)
    requires AddsExactly(rows, w, m, first) && AddsExactly(rows, m, r, second) && first !! second
    requires forall c :: c in first || c in second ==> c.parentRef in w.visited
    ensures AddsExactly(rows, w, r, first + second)
  {
    var a, b, all := RecordsOf(m.items[|w.items|..]), RecordsOf(r.items[|m.items|..]), RecordsOf(r.items[|w.items|..]);
    assert all == a + b;
    NoDuplicatesJoin(a, b);
  }

  lemma NoDuplicatesJoin<T(!new)>(a: seq<T>, b: seq<T>)
    requires NoDuplicates(a) && NoDuplicates(b) && forall c :: c in a ==> c !in b
    ensures NoDuplicates(a + b) && forall c :: c in a + b <==> c in a || c in b
  {
    var all := a + b;
    forall i, j | 0 <= i < j < |all|
      ensures all[i] != all[j]
    {
      if i < |a| <= j {
        assert all[i] == a[i] && a[i] in a;
        assert all[j] == b[j - |a|] && b[j - |a|] in b;
      } else if j < |a| {
        assert all[i] == a[i] && all[j] == a[j];
      } else {
        assert all[i] == b[i - |a|] && all[j] == b[j - |a|];
      }
    }
  }

  lemma {:induction false} DirectoryAdds(rows: set<StoredRecord>, directory: nat, base: Path, w: Walk)
    requires CollectedDirectory(rows, directory, base, w).Some?
    ensures AddsExactly(rows, w, CollectedDirectory(rows, directory, base, w).value, {})
    decreases RecordIds(rows) + {directory} - w.visited, 0
  {
    if directory !in w.visited {
      assert directory in RecordIds(rows) + {directory} - w.visited;
      var list := ChildList(rows, directory);
      var entered := Entered(w, directory);
      ListAdds(rows, list, directory, base, entered);
      var r := CollectedDirectory(rows, directory, base, w).value;
      forall c
        ensures c in list || ChildOfEntered(rows, entered, r, c) <==> ChildOfEntered(rows, w, r, c)
      {
        assert c in list <==> c in Children(rows, directory) by { assert c in list <==> c in Elements(list); }
      }
    }
  }

  lemma {:induction false} ChildAdds(rows: set<StoredRecord>, child: StoredRecord, directory: nat, base: Path, w: Walk)
    requires child in rows && child.parentRef == directory && directory in w.visited
    requires CollectedChild(rows, child, base, w).Some?
    ensures AddsExactly(rows, w, CollectedChild(rows, child, base, w).value, {child})
    decreases RecordIds(rows) - w.visited, 1
  {
    var relative := PathBelow(base, child);
    var added := Added(w, child, relative);
    assert AddsExactly(rows, w, added, {child}) by {
      assert added.items[|w.items|..] == [Item(child, relative)];
      assert RecordsOf([Item(child, relative)]) == [child];
    }
    if child.isDirectory {
      DirectoryAdds(rows, child.recordIdGuess, relative, added);
      AddsCompose(rows, w, added, CollectedChild(rows, child, base, w).value, {child}, {});
      assert {child} + {} == {child};
    }
  }

  /** The first of a list and the others. */
  lemma FirstAndRest<T(!new)>(list: seq<T>)
    requires list != []
    ensures Elements(list) == {list[0]} + Elements(list[1..])
    ensures list[0] in list && forall x :: x in list[1..] ==> x in list
    ensures NoDuplicates(list) ==> NoDuplicates(list[1..]) && {list[0]} !! Elements(list[1..])
  {
    assert list == [list[0]] + list[1..];
    ElementsConcat([list[0]], list[1..]);
    if NoDuplicates(list) {
      forall x | x in list[1..]
        ensures x != list[0]
      {
        var i :| 0 <= i < |list| - 1 && list[1..][i] == x;
        assert list[i + 1] == x;
      }
      assert forall i :: 0 <= i < |list| - 1 ==> list[1..][i] == list[i + 1];
    }
  }

  lemma {:induction false} ListAdds(rows: set<StoredRecord>, list: seq<StoredRecord>, directory: nat, base: Path,
                                    w: Walk)
    requires (forall c :: c in list ==> c in rows && c.parentRef == directory) && NoDuplicates(list)
    requires directory in w.visited && CollectedList(rows, list, base, w).Some?
    ensures AddsExactly(rows, w, CollectedList(rows, list, base, w).value, Elements(list))
    decreases RecordIds(rows) - w.visited, 2 + |list|
  {
    if list != [] {
      FirstAndRest(list);
      ListStep(rows, list, base, w);
      var next, r := CollectedChild(rows, list[0], base, w).value, CollectedList(rows, list, base, w).value;
      ChildAdds(rows, list[0], directory, base, w);
      ListAdds(rows, list[1..], directory, base, next);
      assert r == CollectedList(rows, list[1..], base, next).value;
      AddsCompose(rows, w, next, r, {list[0]}, Elements(list[1..]));
    }
  }

  /** Main result: the item list holds, exactly once each, the surviving children of the reachable directories. */
  lemma ItemsAreChildrenOnce(rows: set<StoredRecord>, root: nat)
    requires CollectedTree(rows, root).Some?
    ensures var records := RecordsOf(CollectedTree(rows, root).value.items);
            && NoDuplicates(records)
            && forall c :: c in records <==> Reachable(rows, root, c.parentRef) && c in Children(rows, c.parentRef)
  {
    VisitedAreReachable(rows, root);
    DirectoryAdds(rows, root, [], START);
    var r := CollectedTree(rows, root).value;
    assert r.items[0..] == r.items;
  }

  //
  // Paths
  //

  /** The tracker holds exactly the keys of the items, and no two items share one. */
  ghost predicate Keyed(w: Walk) {
    && (forall i :: 0 <= i < |w.items| ==> CollisionKey(w.items[i].path) in w.entries)
    && (forall i, j :: 0 <= i < j < |w.items| ==> CollisionKey(w.items[i].path) != CollisionKey(w.items[j].path))
  }

  /** Item `j` is the directory that item `i` lies in. */
  predicate ParentOf(items: seq<Item>, j: nat, i: nat) {
    && j < i < |items| && items[i].path != []
    && items[j].record.isDirectory && items[j].path == items[i].path[..|items[i].path| - 1]
  }

  /** Every item has a path of components, at the top or inside an earlier directory item. */
  ghost predicate Linked(items: seq<Item>) {
    forall i :: 0 <= i < |items| ==> LinkedAt(items, i)
  }

  ghost predicate LinkedAt(items: seq<Item>, i: int)
    requires 0 <= i < |items|
  {
    && items[i].path != [] && IsPath(items[i].path)
    && (|items[i].path| == 1 || exists j :: ParentOf(items, j, i))
  }

  /** `base` is the destination itself or the path of a directory item. */
  ghost predicate IsBase(base: Path, items: seq<Item>) {
    IsPath(base) && (base == [] || exists j :: 0 <= j < |items| && items[j].record.isDirectory && items[j].path == base)
  }

  ghost predicate WellFormed(w: Walk) {
    Keyed(w) && Linked(w.items)
  }

  lemma LongerKeepsLinks(a: seq<Item>, b: seq<Item>, base: Path)
    requires a <= b && IsBase(base, a)
    ensures IsBase(base, b)
  {
    if base != [] {
      var j :| 0 <= j < |a| && a[j].record.isDirectory && a[j].path == base;
      assert b[j] == a[j];
    }
  }

  lemma AddedIsLinked(items: seq<Item>, child: StoredRecord, base: Path)
    requires Linked(items) && IsBase(base, items)
    ensures Linked(items + [Item(child, PathBelow(base, child))])
    ensures child.isDirectory ==> IsBase(PathBelow(base, child), items + [Item(child, PathBelow(base, child))])
  {
    var relative := PathBelow(base, child);
    var all := items + [Item(child, relative)];
    SanitizedIsComponent(child.name);
    assert IsPath(relative);
    assert relative[..|relative| - 1] == base;
    forall i | 0 <= i < |all|
      ensures LinkedAt(all, i)
    {
      if i < |items| {
        assert LinkedAt(items, i);
        if |items[i].path| != 1 {
          var j :| ParentOf(items, j, i);
          assert ParentOf(all, j, i);
        }
      } else if base != [] {
        var j :| 0 <= j < |items| && items[j].record.isDirectory && items[j].path == base;
        assert ParentOf(all, j, i);
      }
    }
    assert all[|items|].path == relative;
  }

  lemma AddedIsKeyed(w: Walk, child: StoredRecord, relative: Path)
    requires Keyed(w) && CollisionKey(relative) !in w.entries
    ensures Keyed(Added(w, child, relative))
  {
  }

  lemma {:induction false} DirectoryWellFormed(rows: set<StoredRecord>, directory: nat, base: Path, w: Walk)
    requires WellFormed(w) && IsBase(base, w.items) && CollectedDirectory(rows, directory, base, w).Some?
    ensures WellFormed(CollectedDirectory(rows, directory, base, w).value)
    decreases RecordIds(rows) + {directory} - w.visited, 0
  {
    if directory !in w.visited {
      assert directory in RecordIds(rows) + {directory} - w.visited;
      ListWellFormed(rows, ChildList(rows, directory), base, Entered(w, directory));
    }
  }

  lemma {:induction false} ChildWellFormed(rows: set<StoredRecord>, child: StoredRecord, base: Path, w: Walk)
    requires child in rows && WellFormed(w) && IsBase(base, w.items) && CollectedChild(rows, child, base, w).Some?
    ensures WellFormed(CollectedChild(rows, child, base, w).value)
    decreases RecordIds(rows) - w.visited, 1
  {
    var relative := PathBelow(base, child);
    AddedIsLinked(w.items, child, base);
    AddedIsKeyed(w, child, relative);
    if child.isDirectory {
      DirectoryWellFormed(rows, child.recordIdGuess, relative, Added(w, child, relative));
    }
  }

  lemma {:induction false} ListWellFormed(rows: set<StoredRecord>, list: seq<StoredRecord>, base: Path, w: Walk)
    requires forall c :: c in list ==> c in rows
    requires WellFormed(w) && IsBase(base, w.items) && CollectedList(rows, list, base, w).Some?
    ensures WellFormed(CollectedList(rows, list, base, w).value)
    decreases RecordIds(rows) - w.visited, 2 + |list|
  {
    if list != [] {
      var next := CollectedChild(rows, list[0], base, w).value;
      ChildWellFormed(rows, list[0], base, w);
      ChildGrows(rows, list[0], base, w);
      LongerKeepsLinks(w.items, next.items, base);
      ListWellFormed(rows, list[1..], base, next);
    }
  }

  lemma TreeWellFormed(rows: set<StoredRecord>, root: nat)
    requires CollectedTree(rows, root).Some?
    ensures WellFormed(CollectedTree(rows, root).value)
  {
    DirectoryWellFormed(rows, root, [], START);
  }

  /** Every non-empty prefix of an item's path is the path of a directory item that comes no later. */
  lemma {:induction false} PrefixIsDirectory(items: seq<Item>, i: nat, n: nat) returns (j: nat)
    requires Linked(items) && i < |items| && 0 < n < |items[i].path|
    ensures j < i && items[j].record.isDirectory && items[j].path == items[i].path[..n]
    decreases i
  {
    assert LinkedAt(items, i);
    j :| ParentOf(items, j, i);
    if n < |items[i].path| - 1 {
      var k := PrefixIsDirectory(items, j, n);
      j := k;
    }
  }

  ghost predicate DistinctPaths(items: seq<Item>) {
    forall i, j :: 0 <= i < j < |items| ==> items[i].path != items[j].path
  }

  /** Main result: any two paths of a collection differ in more than the case of ASCII letters; they stay below the
      destination, and lie inside earlier directory items. */
  lemma PathsAreDistinctAndNested(rows: set<StoredRecord>, root: nat)
    requires CollectedTree(rows, root).Some?
    ensures var items := CollectedTree(rows, root).value.items;
            && (forall i :: 0 <= i < |items| ==> items[i].path != [] && IsPath(items[i].path))
            && (forall i, j :: 0 <= i < j < |items| ==> !SamePathButCase(items[i].path, items[j].path))
            && (forall i, j :: 0 <= i < j < |items| ==> FoldedPath(items[i].path) != FoldedPath(items[j].path))
            && DistinctPaths(items)
            && (forall i :: 0 <= i < |items| && |items[i].path| > 1 ==> exists j :: ParentOf(items, j, i))
  {
    TreeWellFormed(rows, root);
    var items := CollectedTree(rows, root).value.items;
    forall i | 0 <= i < |items|
      ensures items[i].path != [] && IsPath(items[i].path)
      ensures |items[i].path| == 1 || exists j :: ParentOf(items, j, i)
    {
      assert LinkedAt(items, i);
    }
    forall i, j | 0 <= i < j < |items|
      ensures !SamePathButCase(items[i].path, items[j].path)
      ensures FoldedPath(items[i].path) != FoldedPath(items[j].path) && items[i].path != items[j].path
    {
      KeysCollideIff(items[i].path, items[j].path);
      KeyDeterminesFoldedPath(items[i].path, items[j].path);
    }
  }

  lemma FileIsNoPrefix(items: seq<Item>, f: nat, i: nat)
    requires Linked(items) && DistinctPaths(items) && f < |items| && i < |items| && !items[f].record.isDirectory
    ensures !(items[f].path < items[i].path)
  {
    if items[f].path < items[i].path {
      assert LinkedAt(items, f);
      var j := PrefixIsDirectory(items, i, |items[f].path|);
    }
  }

  /** Main result: the path of a file is never a proper prefix of another item's path. */
  lemma FilesHaveNothingBelow(rows: set<StoredRecord>, root: nat)
    requires CollectedTree(rows, root).Some?
    ensures var items := CollectedTree(rows, root).value.items;
            forall f, i :: 0 <= f < |items| && 0 <= i < |items| && !items[f].record.isDirectory ==>
                             !(items[f].path < items[i].path)
  {
    var items := CollectedTree(rows, root).value.items;
    PathsAreDistinctAndNested(rows, root);
    TreeWellFormed(rows, root);
    forall f, i | 0 <= f < |items| && 0 <= i < |items| && !items[f].record.isDirectory
      ensures !(items[f].path < items[i].path)
    {
      FileIsNoPrefix(items, f, i);
    }
  }
}
