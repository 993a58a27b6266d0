/** Collecting the tree below a directory: a depth-first walk over a parent graph that may have cycles. */
module CollectTree {
  import opened Options
  import opened LittleEndian
  import opened Names
  import opened Siblings

  datatype Item = Item(record: StoredRecord, path: Path)

  /** What the walk has accumulated. */
  datatype Walk = Walk(items: seq<Item>, visited: set<nat>, entries: map<seq<byte>, Entry>)

  const START: Walk := Walk([], {}, map[])

  ghost function RecordIds(rows: set<StoredRecord>): set<nat> {
    set r | r in rows :: r.recordIdGuess
  }

  /** The surviving rows of a directory. */
  ghost function Children(rows: set<StoredRecord>, directory: nat): set<StoredRecord> {
    Deduplicated(set r | r in rows && r.parentRef == directory)
  }

  function PathBelow(base: Path, child: StoredRecord): Path {
    base + [Sanitized(child.name)]
  }

  function Added(w: Walk, child: StoredRecord, relative: Path): Walk {
    Walk(w.items + [Item(child, relative)], w.visited,
         w.entries[CollisionKey(relative) := Entry(child.name, child.recordIdGuess, relative)])
  }

  //
  // The walk as a function of the set of rows
  //

  /** `list` enumerates the children of a directory, in an order a sort may leave. */
  ghost predicate IsChildList(list: seq<StoredRecord>, rows: set<StoredRecord>, directory: nat)
    ensures IsChildList(list, rows, directory) ==> forall c :: c in list ==> c in rows && c in Children(rows, directory)
  {
    assert forall c :: c in list ==> c in Elements(list);
    IsListing(list, Children(rows, directory))
  }

  ghost function ChildList(rows: set<StoredRecord>, directory: nat): (list: seq<StoredRecord>)
    ensures IsChildList(list, rows, directory)
  {
    Listing(Children(rows, directory))
  }

  /** The walk of one directory; None when two output paths collide. */
  ghost function CollectedDirectory(rows: set<StoredRecord>, directory: nat, base: Path, w: Walk): (r: Option<Walk>)
    ensures r.Some? ==> w.visited + {directory} <= r.value.visited
    decreases RecordIds(rows) + {directory} - w.visited, 0
  {
    if directory in w.visited then Some(w)
    else
      assert directory in RecordIds(rows) + {directory} - w.visited;
      CollectedList(rows, ChildList(rows, directory), base, Entered(w, directory))
  }

  function Entered(w: Walk, directory: nat): Walk {
    w.(visited := w.visited + {directory})
  }

  /** One iteration of the loop over siblings. */
  ghost function CollectedChild(rows: set<StoredRecord>, child: StoredRecord, base: Path, w: Walk): (r: Option<Walk>)
    requires child in rows
    ensures r.Some? ==> w.visited <= r.value.visited
    decreases RecordIds(rows) - w.visited, 1
  {
    var relative := PathBelow(base, child);
    if CollisionKey(relative) in w.entries then None
    else if child.isDirectory then
      CollectedDirectory(rows, child.recordIdGuess, relative, Added(w, child, relative))
    else Some(Added(w, child, relative))
  }

  /** The walk of a list of siblings. */
  ghost function CollectedList(rows: set<StoredRecord>, list: seq<StoredRecord>, base: Path, w: Walk): (r: Option<Walk>)
    requires forall c :: c in list ==> c in rows
    ensures r.Some? ==> w.visited <= r.value.visited
    decreases RecordIds(rows) - w.visited, 2 + |list|
  {
    if list == [] then Some(w)
    else
      var below := CollectedChild(rows, list[0], base, w);
      if below.None? then None else CollectedList(rows, list[1..], base, below.value)
  }

  /** The whole walk from a root. */
  ghost function CollectedTree(rows: set<StoredRecord>, root: nat): Option<Walk> {
    CollectedDirectory(rows, root, [], START)
  }

  //
  // Growth
  //

  /** A walk only adds. */
  predicate Grows(w: Walk, r: Walk) {
    w.items <= r.items && w.visited <= r.visited && w.entries.Keys <= r.entries.Keys
  }

  lemma {:induction false} DirectoryGrows(rows: set<StoredRecord>, directory: nat, base: Path, w: Walk)
    requires CollectedDirectory(rows, directory, base, w).Some?
    ensures Grows(w, CollectedDirectory(rows, directory, base, w).value)
    decreases RecordIds(rows) + {directory} - w.visited, 0
  {
    if directory !in w.visited {
      assert directory in RecordIds(rows) + {directory} - w.visited;
      ListGrows(rows, ChildList(rows, directory), base, Entered(w, directory));
    }
  }

  lemma {:induction false} ChildGrows(rows: set<StoredRecord>, child: StoredRecord, base: Path, w: Walk)
    requires child in rows && CollectedChild(rows, child, base, w).Some?
    ensures Grows(w, CollectedChild(rows, child, base, w).value)
    ensures CollisionKey(PathBelow(base, child)) in CollectedChild(rows, child, base, w).value.entries
    decreases RecordIds(rows) - w.visited, 1
  {
    var relative := PathBelow(base, child);
    if child.isDirectory {
      DirectoryGrows(rows, child.recordIdGuess, relative, Added(w, child, relative));
    }
  }

  lemma {:induction false} ListGrows(rows: set<StoredRecord>, list: seq<StoredRecord>, base: Path, w: Walk)
    requires (forall c :: c in list ==> c in rows) && CollectedList(rows, list, base, w).Some?
    ensures Grows(w, CollectedList(rows, list, base, w).value)
    decreases RecordIds(rows) - w.visited, 2 + |list|
  {
    if list != [] {
      ChildGrows(rows, list[0], base, w);
      ListGrows(rows, list[1..], base, CollectedChild(rows, list[0], base, w).value);
    }
  }

  //
  // Order independence
  //

  /** The walk of a list, one sibling on. */
  lemma ListStep(rows: set<StoredRecord>, list: seq<StoredRecord>, base: Path, w: Walk)
    requires list != [] && forall c :: c in list ==> c in rows
    ensures forall c :: c in list[1..] ==> c in rows
    ensures var below := CollectedChild(rows, list[0], base, w);
            CollectedList(rows, list, base, w) ==
            if below.None? then None else CollectedList(rows, list[1..], base, below.value)
  {
  }

  /** A sibling whose path is taken by the time it is reached makes the walk fail. */
  lemma {:induction false} TakenPathFails(rows: set<StoredRecord>, list: seq<StoredRecord>, base: Path, w: Walk, j: nat)
    requires (forall c :: c in list ==> c in rows) && j < |list|
    requires CollisionKey(PathBelow(base, list[j])) in w.entries
    ensures CollectedList(rows, list, base, w).None?
    decreases |list|
  {
    ListStep(rows, list, base, w);
    if j > 0 && CollectedChild(rows, list[0], base, w).Some? {
      var next, rest := CollectedChild(rows, list[0], base, w).value, list[1..];
      assert w.entries.Keys <= next.entries.Keys by {
        ChildGrows(rows, list[0], base, w);
      }
      assert rest[j - 1] == list[j];
      TakenPathFails(rows, rest, base, next, j - 1);
    }
  }

  /** A sibling with the name of the first makes the walk fail. */
  lemma FirstNameAgainFails(rows: set<StoredRecord>, list: seq<StoredRecord>, base: Path, w: Walk, j: nat)
    requires (forall c :: c in list ==> c in rows) && 0 < j < |list| && list[0].name == list[j].name
    ensures CollectedList(rows, list, base, w).None?
  {
    ListStep(rows, list, base, w);
    var below, rest := CollectedChild(rows, list[0], base, w), list[1..];
    assert rest[j - 1] == list[j];
    if below.Some? {
      assert CollisionKey(PathBelow(base, list[j])) in below.value.entries by {
        ChildGrows(rows, list[0], base, w);
      }
      TakenPathFails(rows, rest, base, below.value, j - 1);
    }
  }

  /** Two siblings with one name make the walk fail, wherever they stand. */
  lemma {:induction false} SameNameFails(rows: set<StoredRecord>, list: seq<StoredRecord>, base: Path, w: Walk,
                                         i: nat, j: nat)
    requires (forall c :: c in list ==> c in rows) && i < j < |list| && list[i].name == list[j].name
    ensures CollectedList(rows, list, base, w).None?
    decreases |list|
  {
    if i == 0 {
      FirstNameAgainFails(rows, list, base, w, j);
    } else {
      ListStep(rows, list, base, w);
      var below, rest := CollectedChild(rows, list[0], base, w), list[1..];
      assert rest[i - 1] == list[i] && rest[j - 1] == list[j];
      if below.Some? {
        SameNameFails(rows, rest, base, below.value, i - 1, j - 1);
      }
    }
  }

  /** Main result: the outcome does not depend on the order in which the children of a directory come, because two
      rows the comparator cannot separate always collide. */
  lemma OrderDoesNotMatter(rows: set<StoredRecord>, directory: nat, first: seq<StoredRecord>, second: seq<StoredRecord>,
                           base: Path, w: Walk)
    requires IsChildList(first, rows, directory) && IsChildList(second, rows, directory)
    ensures CollectedList(rows, first, base, w) == CollectedList(rows, second, base, w)
  {
    if first != second {
      var p, q := ListingsDiffer(first, second, Children(rows, directory));
      TwinsFail(rows, directory, first, base, w, p, q);
      TwinsFail(rows, directory, second, base, w, p, q);
    }
  }

  lemma TwinsFail(rows: set<StoredRecord>, directory: nat, list: seq<StoredRecord>, base: Path, w: Walk,
                  p: StoredRecord, q: StoredRecord)
    requires IsChildList(list, rows, directory) && p in Children(rows, directory) && q in Children(rows, directory)
    requires p != q && p.name == q.name
    ensures CollectedList(rows, list, base, w).None?
  {
    assert p in Elements(list) && q in Elements(list);
    var i :| 0 <= i < |list| && list[i] == p;
    var j :| 0 <= j < |list| && list[j] == q;
    if i < j {
      SameNameFails(rows, list, base, w, i, j);
    } else {
      SameNameFails(rows, list, base, w, j, i);
    }
  }

  //
  // The source's procedure
  //

  /** The rows of a directory, as the database returns them. Callers rely on the contract only, which leaves the
      order open. */
  method ChildrenOf(rows: seq<StoredRecord>, parentRef: nat) returns (children: seq<StoredRecord>)
    ensures Elements(children) == set r | r in Elements(rows) && r.parentRef == parentRef
  {
    children := [];
    for k := 0 to |rows|
      invariant Elements(children) == set r | r in Elements(rows[..k]) && r.parentRef == parentRef
    {
      assert rows[..k + 1] == rows[..k] + [rows[k]];
      ElementsConcat(rows[..k], [rows[k]]);
      if rows[k].parentRef == parentRef {
        ElementsConcat(children, [rows[k]]);
        children := children + [rows[k]];
      }
    }
    assert rows[..|rows|] == rows;
  }

  class TreeCollector {
    const rows: seq<StoredRecord>
    const collisions: CollisionTracker
    var items: seq<Item>
    var visitedDirs: set<nat>

    constructor (rows: seq<StoredRecord>)
      ensures this.rows == rows && State() == START && fresh(collisions)
    {
      this.rows := rows;
      items, visitedDirs := [], {};
      collisions := new CollisionTracker();
    }

    ghost function State(): Walk
      reads this, collisions
    {
      Walk(items, visitedDirs, collisions.entries)
    }

    /** Main result: whether the collision exception (false) is thrown, and what is collected otherwise, are determined
        by the set of rows. */
    method CollectTree(parentRecordId: nat, base: Path) returns (ok: bool)
      requires DistinctIds(Elements(rows))
      modifies this, collisions
      ensures ok == CollectedDirectory(Elements(rows), parentRecordId, base, old(State())).Some?
      ensures ok ==> State() == CollectedDirectory(Elements(rows), parentRecordId, base, old(State())).value
      decreases RecordIds(Elements(rows)) + {parentRecordId} - visitedDirs
    {
      ghost var all := Elements(rows);
      if parentRecordId in visitedDirs {
        return true;
      }
      visitedDirs := visitedDirs + {parentRecordId};
      var queried := ChildrenOf(rows, parentRecordId);
      var children := DedupChildren(queried);
      ghost var entered := State();
      assert IsChildList(children, all, parentRecordId);
      OrderDoesNotMatter(all, parentRecordId, children, ChildList(all, parentRecordId), base, entered);
      for k := 0 to |children|
        invariant old(visitedDirs) + {parentRecordId} <= visitedDirs
        invariant forall c :: c in children ==> c in all
        invariant CollectedList(all, children, base, entered) == CollectedList(all, children[k..], base, State())
      {
        var child := children[k];
        assert children[k..][1..] == children[k + 1..];
        var name := SanitizeName(child.name);
        var relative := base + [name];
        var added := collisions.Add(relative, child.name, child.recordIdGuess);
        if !added {
          return false;
        }
        items := items + [Item(child, relative)];
        if child.isDirectory {
          assert child.recordIdGuess in RecordIds(all);
          ok := CollectTree(child.recordIdGuess, relative);
          if !ok {
            return false;
          }
        }
      }
      return true;
    }
  }
}
