/** Choosing and ordering the rows of one directory. */
module Siblings {
  import opened Sequences
  import opened LittleEndian
  import opened Names

  const DOS_NAMESPACE: int := 2

  /** A row of the scan database; rows have distinct ids. */
  datatype StoredRecord = StoredRecord(id: int, recordIdGuess: nat, offset: nat, parentRef: nat, name: Name,
                                       nameNamespace: int, flags: nat, allocatedSize: nat, realSize: nat,
                                       isDirectory: bool)

  predicate IsDos(r: StoredRecord) {
    r.nameNamespace == DOS_NAMESPACE
  }

  ghost predicate DistinctIds(rows: set<StoredRecord>) {
    forall p, q :: p in rows && q in rows && p.id == q.id ==> p == q
  }

  ghost predicate NoDuplicates<T(!new)>(s: seq<T>) {
    forall i, j :: 0 <= i < j < |s| ==> s[i] != s[j]
  }

  ghost function Elements<T>(s: seq<T>): set<T> {
    set x | x in s
  }

  //
  // Which rows survive
  //

  /** Some row of the record has a name outside the DOS namespace. */
  ghost predicate HasLongName(rows: set<StoredRecord>, recordId: nat) {
    exists r :: r in rows && r.recordIdGuess == recordId && !IsDos(r)
  }

  /** DOS names are skipped for records that have another name. */
  ghost predicate Eligible(rows: set<StoredRecord>, r: StoredRecord) {
    r in rows && !(IsDos(r) && HasLongName(rows, r.recordIdGuess))
  }

  predicate SameNameOf(p: StoredRecord, q: StoredRecord) {
    p.recordIdGuess == q.recordIdGuess && p.name == q.name
  }

  /** The eligible row with the least id among those with its record and name. */
  ghost predicate Survives(rows: set<StoredRecord>, r: StoredRecord) {
    Eligible(rows, r) && forall q :: Eligible(rows, q) && SameNameOf(r, q) ==> r.id <= q.id
  }

  ghost function Deduplicated(rows: set<StoredRecord>): set<StoredRecord> {
    set r | r in rows && Survives(rows, r)
  }

  lemma {:induction false} LeastRow(rows: set<StoredRecord>) returns (least: StoredRecord)
    requires rows != {}
    ensures least in rows && forall q :: q in rows ==> least.id <= q.id
    decreases |rows|
  {
    var r :| r in rows;
    least := r;
    var rest := rows - {r};
    if rest != {} {
      var other := LeastRow(rest);
      if other.id < r.id { least := other; }
    }
  }

  /** Every eligible row has a survivor with its record and name. */
  lemma SurvivorFor(rows: set<StoredRecord>, r: StoredRecord) returns (s: StoredRecord)
    requires Eligible(rows, r)
    ensures s in Deduplicated(rows) && SameNameOf(s, r)
  {
    var peers := set q | q in rows && Eligible(rows, q) && SameNameOf(q, r);
    assert r in peers;
    s := LeastRow(peers);
    forall q | Eligible(rows, q) && SameNameOf(s, q)
      ensures s.id <= q.id
    {
      assert q in peers;
    }
  }

  /** Main result: deduplication keeps every record. */
  lemma SameRecords(rows: set<StoredRecord>)
    ensures (set r | r in Deduplicated(rows) :: r.recordIdGuess) == (set r | r in rows :: r.recordIdGuess)
  {
    forall r | r in rows
      ensures r.recordIdGuess in (set s | s in Deduplicated(rows) :: s.recordIdGuess)
    {
      var long := if Eligible(rows, r) then r else LongNameOf(rows, r.recordIdGuess);
      var s := SurvivorFor(rows, long);
    }
  }

  ghost function LongNameOf(rows: set<StoredRecord>, recordId: nat): (r: StoredRecord)
    requires HasLongName(rows, recordId)
    ensures Eligible(rows, r) && r.recordIdGuess == recordId
  {
    var r :| r in rows && r.recordIdGuess == recordId && !IsDos(r);
    r
  }

  /** Main result: no DOS name survives for a record that has another name, exactly the least id survives for each
      record and name, and deduplicating again changes nothing. */
  lemma DeduplicationIsExact(rows: set<StoredRecord>)
    requires DistinctIds(rows)
    ensures forall p, q :: p in Deduplicated(rows) && q in rows && IsDos(p) && p.recordIdGuess == q.recordIdGuess ==>
      IsDos(q)
    ensures forall p, q :: p in Deduplicated(rows) && q in Deduplicated(rows) && SameNameOf(p, q) ==> p == q
    ensures forall r :: Eligible(rows, r) ==>
                          exists s :: s in Deduplicated(rows) && SameNameOf(r, s) && s.id <= r.id
    ensures Deduplicated(Deduplicated(rows)) == Deduplicated(rows)
  {
    forall r | Eligible(rows, r)
      ensures exists s :: s in Deduplicated(rows) && SameNameOf(r, s) && s.id <= r.id
    {
      var s := SurvivorFor(rows, r);
    }
    var once := Deduplicated(rows);
    forall r | r in once
      ensures Survives(once, r)
    {
      assert forall q :: Eligible(once, q) ==> Eligible(rows, q);
    }
  }

  /** A DOS name is set aside when a row of its record has a name of another kind. */
  ghost predicate IsSetAside(rows: set<StoredRecord>, r: StoredRecord) {
    r.nameNamespace == 2 && exists q :: q in rows && q.recordIdGuess == r.recordIdGuess && q.nameNamespace != 2
  }

  /** Main result: a row survives if and only if it is not set aside and no other such row of its record has the same
      name and a smaller id. */
  lemma SurvivesIff(rows: set<StoredRecord>, r: StoredRecord)
    ensures r in Deduplicated(rows) <==>
            && r in rows && !IsSetAside(rows, r)
            && forall q :: q in rows && !IsSetAside(rows, q) && q.recordIdGuess == r.recordIdGuess ==>
                             q.name == r.name ==> r.id <= q.id
  {
    forall q
      ensures Eligible(rows, q) <==> q in rows && !IsSetAside(rows, q)
    {
      assert HasLongName(rows, q.recordIdGuess) <==>
             exists p :: p in rows && p.recordIdGuess == q.recordIdGuess && p.nameNamespace != 2;
    }
  }

  //
  // The key of a row
  //

  function Decimal(n: nat): (s: seq<byte>)
    ensures s != []
  {
    if n < 10 then [48 + n] else Decimal(n / 10) + [48 + n % 10]
  }

  /** The text the rows are grouped by: the record number, a line feed, the name. */
  function RowKey(recordId: nat, name: Name): seq<byte> {
    Decimal(recordId) + [10] + name
  }

  lemma {:induction false} DecimalDigits(n: nat)
    ensures forall b :: b in Decimal(n) ==> 48 <= b <= 57
  {
    if n >= 10 { DecimalDigits(n / 10); }
  }

  lemma {:induction false} DecimalInjective(m: nat, n: nat)
    requires Decimal(m) == Decimal(n)
    ensures m == n
    decreases m
  {
    var s := Decimal(m);
    var last := s[|s| - 1];
    if m >= 10 && n >= 10 {
      assert Decimal(m / 10) == s[..|s| - 1] == Decimal(n / 10);
      DecimalInjective(m / 10, n / 10);
    }
  }

  /** Main result: rows share a key exactly when they share record and name. */
  lemma RowKeyInjective(m: nat, a: Name, n: nat, b: Name)
    ensures RowKey(m, a) == RowKey(n, b) <==> m == n && a == b
  {
    if RowKey(m, a) == RowKey(n, b) {
      var k, d, e := RowKey(m, a), Decimal(m), Decimal(n);
      LineFeedAfterDigits(m, a);
      LineFeedAfterDigits(n, b);
      assert |d| == |e|;
      assert d == k[..|d|] == e;
      DecimalInjective(m, n);
      assert a == k[|d| + 1..] == b;
    }
  }

  lemma LineFeedAfterDigits(n: nat, name: Name)
    ensures RowKey(n, name)[|Decimal(n)|] == 10
    ensures forall i :: 0 <= i < |Decimal(n)| ==> RowKey(n, name)[i] != 10
  {
    DecimalDigits(n);
    forall i | 0 <= i < |Decimal(n)|
      ensures RowKey(n, name)[i] != 10
    {
      assert Decimal(n)[i] in Decimal(n);
    }
  }

  //
  // Order
  //

  /** Byte-wise lexicographic order, as strings compare. */
  predicate NameLess(a: Name, b: Name) {
    b != [] && (a == [] || a[0] < b[0] || (a[0] == b[0] && NameLess(a[1..], b[1..])))
  }

  lemma {:induction false} NameTrichotomy(a: Name, b: Name)
    ensures a == b || NameLess(a, b) || NameLess(b, a)
    ensures NameLess(a, b) ==> a != b && !NameLess(b, a)
  {
    if a != [] && b != [] {
      NameTrichotomy(a[1..], b[1..]);
      if a[0] == b[0] && a[1..] == b[1..] {
        assert a == [a[0]] + a[1..] && b == [b[0]] + b[1..];
      }
    }
  }

  lemma {:induction false} NameTransitive(a: Name, b: Name, c: Name)
    requires NameLess(a, b) && NameLess(b, c)
    ensures NameLess(a, c)
  {
    if a != [] && a[0] == b[0] == c[0] {
      NameTransitive(a[1..], b[1..], c[1..]);
    }
  }

  /** Directories first, then by name. */
  predicate RowLess(p: StoredRecord, q: StoredRecord) {
    if p.isDirectory != q.isDirectory then p.isDirectory else NameLess(p.name, q.name)
  }

  /** `k` is where the names differ first, and `a` ends there or has the smaller byte. */
  predicate IsSmallerAt(a: Name, b: Name, k: nat) {
    k <= |a| && k < |b| && a[..k] == b[..k] && (k == |a| || a[k] < b[k])
  }

  /** Main result: names compare by their first different byte, and a name comes before its continuations. */
  lemma {:induction false} NameLessIff(a: Name, b: Name)
    ensures NameLess(a, b) <==> exists k: nat :: IsSmallerAt(a, b, k)
  {
    if a != [] && b != [] && a[0] == b[0] {
      NameLessIff(a[1..], b[1..]);
      if k: nat :| IsSmallerAt(a[1..], b[1..], k) {
        SmallerOneOn(a, b, k);
      }
      if k: nat :| IsSmallerAt(a, b, k) {
        assert k > 0;
        SmallerOneOn(a, b, k - 1);
      }
    } else if a == [] && b != [] {
      assert IsSmallerAt(a, b, 0);
    } else if a != [] && b != [] {
      assert a[0] < b[0] ==> IsSmallerAt(a, b, 0);
      assert forall k: nat :: IsSmallerAt(a, b, k) && k > 0 ==> a[0] == a[..k][0] == b[..k][0] == b[0];
    }
  }

  lemma SmallerOneOn(a: Name, b: Name, k: nat)
    requires a != [] && b != [] && a[0] == b[0]
    ensures IsSmallerAt(a[1..], b[1..], k) <==> IsSmallerAt(a, b, k + 1)
  {
    if k + 1 <= |a| && k + 1 <= |b| {
      assert a[..k + 1] == [a[0]] + a[1..][..k] && b[..k + 1] == [b[0]] + b[1..][..k];
      assert a[1..][..k] == a[..k + 1][1..] && b[1..][..k] == b[..k + 1][1..];
    }
  }

  /** Main result: directories come before files, and rows of one kind by their names. */
  lemma RowLessIff(p: StoredRecord, q: StoredRecord)
    ensures RowLess(p, q) <==>
            (p.isDirectory && !q.isDirectory)
            || (p.isDirectory == q.isDirectory && exists k: nat :: IsSmallerAt(p.name, q.name, k))
  {
    NameLessIff(p.name, q.name);
  }

  lemma RowLessTransitive(a: StoredRecord, b: StoredRecord, c: StoredRecord)
    ensures !RowLess(b, a) && !RowLess(c, b) ==> !RowLess(c, a)
    ensures RowLess(a, b) ==> !RowLess(b, a)
  {
    NameTrichotomy(a.name, b.name);
    NameTrichotomy(b.name, c.name);
    NameTrichotomy(a.name, c.name);
    if NameLess(a.name, b.name) && NameLess(b.name, c.name) { NameTransitive(a.name, b.name, c.name); }
    if NameLess(c.name, a.name) && NameLess(a.name, b.name) { NameTransitive(c.name, a.name, b.name); }
    if NameLess(b.name, c.name) && NameLess(c.name, a.name) { NameTransitive(b.name, c.name, a.name); }
  }

  predicate SortedRows(s: seq<StoredRecord>) {
    forall i, j :: 0 <= i < j < |s| ==> !RowLess(s[j], s[i])
  }

  /** `list` enumerates `rows` in an order a sort may leave. */
  ghost predicate IsListing(list: seq<StoredRecord>, rows: set<StoredRecord>) {
    SortedRows(list) && NoDuplicates(list) && Elements(list) == rows
  }

  function Insert(r: StoredRecord, list: seq<StoredRecord>): (s: seq<StoredRecord>)
    ensures |s| == |list| + 1
  {
    if list == [] then [r]
    else if RowLess(r, list[0]) then [r] + list
    else [list[0]] + Insert(r, list[1..])
  }

  lemma ElementsConcat<T>(a: seq<T>, b: seq<T>)
    ensures Elements(a + b) == Elements(a) + Elements(b)
  {
  }

  lemma ListingTail(list: seq<StoredRecord>, rows: set<StoredRecord>)
    requires IsListing(list, rows) && list != []
    ensures list[0] in rows && IsListing(list[1..], rows - {list[0]})
    ensures forall x :: x in rows && x != list[0] ==> !RowLess(x, list[0])
  {
    forall x | x in rows && x != list[0]
      ensures x in list[1..] && !RowLess(x, list[0])
    {
      assert x in list;
      var i :| 0 <= i < |list| && list[i] == x;
      assert x == list[1..][i - 1];
    }
    forall x | x in list[1..]
      ensures x in rows && x != list[0]
    {
      var i :| 0 <= i < |list[1..]| && list[1..][i] == x;
      assert list[i + 1] == x && x in list;
    }
  }

  lemma ListingCons(h: StoredRecord, tail: seq<StoredRecord>, rows: set<StoredRecord>)
    requires IsListing(tail, rows) && h !in rows && forall x :: x in rows ==> !RowLess(x, h)
    ensures IsListing([h] + tail, rows + {h})
  {
    var list := [h] + tail;
    forall j | 0 < j < |list|
      ensures list[j] in rows
    {
      assert list[j] == tail[j - 1];
    }
    assert forall x :: x in list <==> x == h || x in tail;
  }

  lemma {:induction false} InsertListing(r: StoredRecord, list: seq<StoredRecord>, rows: set<StoredRecord>)
    requires IsListing(list, rows) && r !in rows
    ensures IsListing(Insert(r, list), rows + {r})
    decreases |list|
  {
    if list == [] {
      ListingCons(r, [], rows);
      NothingAdded([r]);
    } else {
      var h := list[0];
      ListingTail(list, rows);
      if RowLess(r, h) {
        forall x | x in rows
          ensures !RowLess(x, r)
        {
          RowLessTransitive(r, h, x);
        }
        ListingCons(r, list, rows);
      } else {
        InsertListing(r, list[1..], rows - {h});
        assert rows - {h} + {r} + {h} == rows + {r};
        ListingCons(h, Insert(r, list[1..]), rows - {h} + {r});
      }
    }
  }

  /** One listing of a set of rows; ties are broken arbitrarily. */
  ghost function Listing(rows: set<StoredRecord>): (list: seq<StoredRecord>)
    ensures IsListing(list, rows)
  {
    if rows == {} then []
    else
      var r :| r in rows;
      InsertListing(r, Listing(rows - {r}), rows - {r});
      assert rows - {r} + {r} == rows;
      Insert(r, Listing(rows - {r}))
  }

  lemma EmptyListing(list: seq<StoredRecord>, rows: set<StoredRecord>)
    requires IsListing(list, rows)
    ensures list == [] <==> rows == {}
  {
    if list != [] {
      assert list[0] in Elements(list);
    } else {
      assert Elements(list) == {};
    }
  }

  /** Two listings of the same rows differ only when the comparator cannot separate two of the rows. */
  lemma {:induction false} ListingsDiffer(a: seq<StoredRecord>, b: seq<StoredRecord>, rows: set<StoredRecord>)
    returns (p: StoredRecord, q: StoredRecord)
    requires IsListing(a, rows) && IsListing(b, rows) && a != b
    ensures p in rows && q in rows && p != q && p.name == q.name && p.isDirectory == q.isDirectory
    decreases |a|
  {
    EmptyListing(a, rows);
    EmptyListing(b, rows);
    ListingTail(a, rows);
    ListingTail(b, rows);
    if a[0] == b[0] {
      assert a == [a[0]] + a[1..] && b == [b[0]] + b[1..];
      p, q := ListingsDiffer(a[1..], b[1..], rows - {a[0]});
    } else {
      p, q := a[0], b[0];
      NameTrichotomy(p.name, q.name);
    }
  }

  //
  // The source's procedure
  //

  /** The preferred row of two: one outside the DOS namespace, then the longer name, then the smaller id. */
  predicate IsBetter(p: StoredRecord, q: StoredRecord) {
    if IsDos(p) != IsDos(q) then IsDos(q)
    else |p.name| > |q.name| || (|p.name| == |q.name| && p.id < q.id)
  }

  /** Main result: the preference orders all rows with distinct ids strictly and totally, so that the best of several
      rows does not depend on the order in which they are compared. */
  lemma BetterIsStrictOrder(p: StoredRecord, q: StoredRecord, r: StoredRecord)
    ensures !(IsBetter(p, q) && IsBetter(q, p))
    ensures p.id != q.id ==> IsBetter(p, q) || IsBetter(q, p)
    ensures IsBetter(p, q) && IsBetter(q, r) ==> IsBetter(p, r)
  {
  }

  method BetterName(candidate: StoredRecord, current: StoredRecord) returns (better: bool)
    ensures better == IsBetter(candidate, current)
  {
    var candidateDos := candidate.nameNamespace == DOS_NAMESPACE;
    var currentDos := current.nameNamespace == DOS_NAMESPACE;
    if candidateDos != currentDos {
      return !candidateDos;
    }
    if |candidate.name| != |current.name| {
      return |candidate.name| > |current.name|;
    }
    return candidate.id < current.id;
  }

  /** Sorts under the source's comparator. Callers rely on the contract only, which leaves the order of rows the
      comparator cannot separate open, as the library does. */
  method SortRows(rows: seq<StoredRecord>) returns (result: seq<StoredRecord>)
    requires NoDuplicates(rows)
    ensures IsListing(result, Elements(rows))
  {
    result := [];
    for k := 0 to |rows|
      invariant IsListing(result, Elements(rows[..k]))
    {
      assert rows[k] !in rows[..k];
      InsertListing(rows[k], result, Elements(rows[..k]));
      assert rows[..k + 1] == rows[..k] + [rows[k]];
      assert Elements(rows[..k + 1]) == Elements(rows[..k]) + {rows[k]};
      result := Insert(rows[k], result);
    }
    assert rows[..|rows|] == rows;
  }

  ghost predicate LongNamesAre(longNames: map<nat, bool>, rows: set<StoredRecord>) {
    forall id :: (id in longNames && longNames[id]) <==> HasLongName(rows, id)
  }

  method FindLongNames(children: seq<StoredRecord>) returns (longNames: map<nat, bool>)
    ensures LongNamesAre(longNames, Elements(children))
  {
    longNames := map[];
    for k := 0 to |children|
      invariant LongNamesAre(longNames, Elements(children[..k]))
    {
      var child := children[k];
      assert children[..k + 1] == children[..k] + [child];
      ghost var before, after := Elements(children[..k]), Elements(children[..k + 1]);
      assert after == before + {child};
      forall id
        ensures HasLongName(after, id) <==> HasLongName(before, id) || (child.recordIdGuess == id && !IsDos(child))
      {
        if child.recordIdGuess == id && !IsDos(child) { assert child in after; }
      }
      if child.nameNamespace != DOS_NAMESPACE {
        longNames := longNames[child.recordIdGuess := true];
      }
    }
    assert children[..|children|] == children;
  }

  function KeyOf(r: StoredRecord): seq<byte> {
    RowKey(r.recordIdGuess, r.name)
  }

  /** `byKey` holds, for each key of an eligible row among the first `k`, the eligible row with the least id. */
  ghost predicate BestByKey(byKey: map<seq<byte>, StoredRecord>, children: seq<StoredRecord>, k: nat)
    requires k <= |children|
  {
    var rows := Elements(children);
    && (forall key :: key in byKey ==>
        byKey[key] in children[..k] && Eligible(rows, byKey[key]) && key == KeyOf(byKey[key]))
    && (forall i :: 0 <= i < k && Eligible(rows, children[i]) ==>
                      KeyOf(children[i]) in byKey && byKey[KeyOf(children[i])].id <= children[i].id)
  }

  lemma EligibleRowsAgreeOnDos(rows: set<StoredRecord>, p: StoredRecord, q: StoredRecord)
    requires Eligible(rows, p) && Eligible(rows, q) && p.recordIdGuess == q.recordIdGuess
    ensures IsDos(p) == IsDos(q)
  {
    assert !IsDos(p) ==> HasLongName(rows, p.recordIdGuess);
    assert !IsDos(q) ==> HasLongName(rows, p.recordIdGuess);
  }

  lemma SkipIneligible(byKey: map<seq<byte>, StoredRecord>, children: seq<StoredRecord>, k: nat)
    requires k < |children| && BestByKey(byKey, children, k) && !Eligible(Elements(children), children[k])
    ensures BestByKey(byKey, children, k + 1)
  {
    assert children[..k + 1] == children[..k] + [children[k]];
  }

  /** The second half of the grouping loop: an eligible row competes for its key. */
  method Offer(byKey: map<seq<byte>, StoredRecord>, child: StoredRecord, ghost children: seq<StoredRecord>,
               ghost k: nat)
    returns (result: map<seq<byte>, StoredRecord>)
    requires k < |children| && child == children[k] && BestByKey(byKey, children, k) &&
      Eligible(Elements(children), child)
    ensures BestByKey(result, children, k + 1)
  {
    var key := RowKey(child.recordIdGuess, child.name);
    var better := key !in byKey;
    if key in byKey {
      RowKeyInjective(child.recordIdGuess, child.name, byKey[key].recordIdGuess, byKey[key].name);
      EligibleRowsAgreeOnDos(Elements(children), child, byKey[key]);
      better := BetterName(child, byKey[key]);
    }
    assert children[..k + 1] == children[..k] + [child];
    result := if better then byKey[key := child] else byKey;
  }

  method GroupByKey(children: seq<StoredRecord>, names: map<nat, bool>) returns (byKey: map<seq<byte>, StoredRecord>)
    requires LongNamesAre(names, Elements(children))
    ensures BestByKey(byKey, children, |children|)
  {
    var longNames: map<nat, bool> := names;
    byKey := map[];
    for k := 0 to |children|
      invariant LongNamesAre(longNames, Elements(children))
      invariant BestByKey(byKey, children, k)
    {
      var child := children[k];
      var skip := false;
      if child.nameNamespace == DOS_NAMESPACE {
        // Indexing the hash map inserts a missing entry.
        if child.recordIdGuess !in longNames {
          longNames := longNames[child.recordIdGuess := false];
        }
        skip := longNames[child.recordIdGuess];
      }
      assert skip == !Eligible(Elements(children), child);
      if skip {
        SkipIneligible(byKey, children, k);
      } else {
        byKey := Offer(byKey, child, children, k);
      }
    }
  }

  lemma BestAreSurvivors(byKey: map<seq<byte>, StoredRecord>, children: seq<StoredRecord>)
    requires BestByKey(byKey, children, |children|) && DistinctIds(Elements(children))
    ensures (set key | key in byKey :: byKey[key]) == Deduplicated(Elements(children))
  {
    var rows := Elements(children);
    forall key | key in byKey
      ensures Survives(rows, byKey[key])
    {
      forall q | Eligible(rows, q) && SameNameOf(byKey[key], q)
        ensures byKey[key].id <= q.id
      {
        var i :| 0 <= i < |children| && children[i] == q;
      }
    }
    forall r | r in rows && Survives(rows, r)
      ensures r in (set key | key in byKey :: byKey[key])
    {
      var i :| 0 <= i < |children| && children[i] == r;
      var v := byKey[KeyOf(r)];
      RowKeyInjective(r.recordIdGuess, r.name, v.recordIdGuess, v.name);
      assert v.id == r.id && v in rows;
    }
  }

  /** Empties the hash map in an arbitrary order. */
  method Values(byKey: map<seq<byte>, StoredRecord>) returns (result: seq<StoredRecord>)
    requires forall key :: key in byKey ==> key == KeyOf(byKey[key])
    ensures NoDuplicates(result) && Elements(result) == (set key | key in byKey :: byKey[key])
  {
    result := [];
    var rest := byKey.Keys;
    while rest != {}
      invariant rest <= byKey.Keys
      invariant NoDuplicates(result)
      invariant Elements(result) == (set key | key in byKey && key !in rest :: byKey[key])
      decreases rest
    {
      var key :| key in rest;
      ghost var before := Elements(result);
      assert byKey[key] !in before;
      result := result + [byKey[key]];
      rest := rest - {key};
      assert Elements(result) == before + {byKey[key]};
    }
  }

  /** Main result: whatever the order of the query, of the hash map and of ties in the sort, the result is a
      listing of exactly the surviving rows. */
  method DedupChildren(children: seq<StoredRecord>) returns (result: seq<StoredRecord>)
    requires DistinctIds(Elements(children))
    ensures IsListing(result, Deduplicated(Elements(children)))
  {
    var longNames := FindLongNames(children);
    var byKey := GroupByKey(children, longNames);
    BestAreSurvivors(byKey, children);
    var values := Values(byKey);
    result := SortRows(values);
  }
}
