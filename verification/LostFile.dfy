/** A device from which an overwriting run loses a file that it counts as recovered. */
module LostFile {
  import opened Options
  import opened LittleEndian
  import opened MachineInts
  import opened Utf
  import opened Names
  import opened Siblings
  import opened CollectTree
  import opened MftRecord
  import opened RecordFormat
  import opened RecordRoundTrip
  import opened Devices
  import opened LocateRecords
  import opened Scanner
  import opened FileSystems
  import opened Directories
  import opened AtomicFiles
  import opened Jobs
  import opened RecoverRun
  import opened Pipeline

  const LETTERS_A_B: seq<byte> := [0x61, 0x5F, 0x62]

  //
  // The rows
  //

  /** Two files of one directory, named "a/b.partial" and "a_b". */
  ghost predicate IsPair(a: StoredRecord, b: StoredRecord, root: nat) {
    && a.name == [0x61, 0x2F, 0x62] + PARTIAL_SUFFIX && b.name == LETTERS_A_B
    && a.parentRef == root == b.parentRef && !a.isDirectory && !b.isDirectory
    && a.id != b.id && !IsDos(a) && !IsDos(b)
  }

  /** The directory holds the pair and nothing else. */
  ghost predicate HoldsPair(rows: set<StoredRecord>, a: StoredRecord, b: StoredRecord, root: nat) {
    IsPair(a, b, root) && forall r :: r in rows && r.parentRef == root <==> r == a || r == b
  }

  lemma PairNames(a: StoredRecord, b: StoredRecord, root: nat)
    requires IsPair(a, b, root)
    ensures Sanitized(a.name) == LETTERS_A_B + PARTIAL_SUFFIX && Sanitized(b.name) == LETTERS_A_B
    ensures !NameLess(b.name, a.name)
  {
    assert Replaced(a.name) == LETTERS_A_B + PARTIAL_SUFFIX;
    assert Replaced(b.name) == LETTERS_A_B;
    assert b.name[1..][0] == 0x5F && a.name[1..][0] == 0x2F;
  }

  lemma PairIsChildList(rows: set<StoredRecord>, a: StoredRecord, b: StoredRecord, root: nat)
    requires HoldsPair(rows, a, b, root)
    ensures IsChildList([a, b], rows, root)
  {
    var pair := {a, b};
    PairNames(a, b, root);
    assert |a.name| != |b.name|;
    assert (set r | r in rows && r.parentRef == root) == pair;
    assert Survives(pair, a) && Survives(pair, b);
    assert Deduplicated(pair) == pair;
    assert Elements([a, b]) == pair;
  }

  lemma PairPaths(a: StoredRecord, b: StoredRecord, root: nat)
    requires IsPair(a, b, root)
    ensures CollisionKey(PathBelow([], a)) != CollisionKey(PathBelow([], b))
    ensures PathBelow([], a) == [LETTERS_A_B + PARTIAL_SUFFIX] && PathBelow([], b) == [LETTERS_A_B]
  {
    PairNames(a, b, root);
    var p, q := PathBelow([], a), PathBelow([], b);
    SanitizedIsComponent(a.name);
    SanitizedIsComponent(b.name);
    assert |FoldedPath(p)[0]| != |FoldedPath(q)[0]|;
    KeyDeterminesFoldedPath(p, q);
  }

  lemma FileStep(rows: set<StoredRecord>, list: seq<StoredRecord>, base: Path, w: Walk)
    requires list != [] && (forall c :: c in list ==> c in rows) && !list[0].isDirectory
    requires CollisionKey(PathBelow(base, list[0])) !in w.entries
    ensures CollectedList(rows, list, base, w) ==
            CollectedList(rows, list[1..], base, Added(w, list[0], PathBelow(base, list[0])))
  {
  }

  lemma EntriesOfAdded(w: Walk, child: StoredRecord, relative: Path, key: seq<byte>)
    requires key != CollisionKey(relative) && key !in w.entries
    ensures key !in Added(w, child, relative).entries
  {
  }

  /** The collection accepts the pair, in this order. */
  lemma PairIsCollected(rows: set<StoredRecord>, a: StoredRecord, b: StoredRecord, root: nat)
    requires HoldsPair(rows, a, b, root)
    ensures CollectedTree(rows, root).Some?
    ensures CollectedTree(rows, root).value.items == [Item(a, [LETTERS_A_B + PARTIAL_SUFFIX]), Item(b, [LETTERS_A_B])]
  {
    var w := Entered(START, root);
    PairIsChildList(rows, a, b, root);
    OrderDoesNotMatter(rows, root, [a, b], ChildList(rows, root), [], w);
    PairPaths(a, b, root);
    PairIsWalked(rows, a, b, w);
  }

  /** The walk adds two files with different keys, one after the other. */
  lemma PairIsWalked(rows: set<StoredRecord>, a: StoredRecord, b: StoredRecord, w: Walk)
    requires a in rows && b in rows && !a.isDirectory && !b.isDirectory && w.entries == map[]
    requires CollisionKey(PathBelow([], a)) != CollisionKey(PathBelow([], b))
    ensures CollectedList(rows, [a, b], [], w) ==
            Some(Added(Added(w, a, PathBelow([], a)), b, PathBelow([], b)))
  {
    var p, q := PathBelow([], a), PathBelow([], b);
    var first := Added(w, a, p);
    EntriesOfAdded(w, a, p, CollisionKey(q));
    FileStep(rows, [a, b], [], w);
    assert [a, b][1..] == [b];
    FileStep(rows, [b], [], first);
    assert CollectedList(rows, [b][1..], [], Added(first, b, q)) == Some(Added(first, b, q));
  }

  //
  // The records
  //

  /** Whatever of this size fits a record. */
  predicate IsSmall(content: seq<byte>) {
    |content| <= 100
  }

  predicate IsNumber(number: nat) {
    0 < number <= ATTRIBUTE_END
  }

  /** A short name in ASCII, without NULs. */
  predicate IsAscii(name: seq<codeUnit>) {
    name != [] && |name| <= 20 && forall u :: u in name ==> 0 < u < 0x80
  }

  lemma AsciiUnit(name: seq<codeUnit>, k: nat)
    requires IsAscii(name) && k < |name|
    ensures ScalarAt(name, k) == name[k] && NextUnit(name, k) == k + 1 && Utf8Of(ScalarAt(name, k)) == [name[k]]
  {
    assert name[k] in name;
  }

  lemma {:induction false} AsciiFrom(name: seq<codeUnit>, k: nat)
    requires IsAscii(name) && k <= |name|
    ensures Utf8From(name, k) == name[k..]
    decreases |name| - k
  {
    if k < |name| {
      AsciiUnit(name, k);
      assert name[k] in name;
      Utf8Step(name, k);
      AsciiFrom(name, k + 1);
    }
  }

  /** The text of an ASCII name is the name itself. */
  lemma AsciiName(name: seq<codeUnit>)
    requires IsAscii(name)
    ensures Utf8Name(Utf16le(name)) == name
  {
    UnitsOfUtf16le(name);
    AsciiFrom(name, 0);
  }

  /** The attributes of a directory record or, with content, of a file record. */
  function AttributesOf(name: seq<codeUnit>, parentRef: uint64, content: Option<seq<byte>>): (attributes: seq<Appended>)
    ensures attributes != []
  {
    [FileName(name, parentRef, 1)] + if content.Some? then [ResidentData(content.value)] else []
  }

  predicate IsContent(content: Option<seq<byte>>) {
    content.Some? ==> IsSmall(content.value)
  }

  lemma SmallLayout(name: seq<codeUnit>, parentRef: uint64, content: Option<seq<byte>>)
    requires IsAscii(name) && IsContent(content)
    ensures Fits(AttributesOf(name, parentRef, content))
  {
    var attributes := AttributesOf(name, parentRef, content);
    assert attributes[0] == FileName(name, parentRef, 1);
    assert |Layout([])| == 0;
    if content.Some? {
      assert attributes[1..] == [ResidentData(content.value)];
      assert attributes[1..][1..] == [];
      assert |Layout(attributes[1..])| == |AttributeBytes(ResidentData(content.value))|;
    } else {
      assert attributes[1..] == [];
    }
    assert |Layout(attributes)| == |AttributeBytes(attributes[0])| + |Layout(attributes[1..])|;
  }

  function RecordWith(number: nat, flags: nat, name: seq<codeUnit>, parentRef: uint64, content: Option<seq<byte>>)
    : (block: seq<byte>)
    requires IsAscii(name) && IsContent(content)
    ensures |block| == RECORD_SIZE
  {
    SmallLayout(name, parentRef, content);
    Built(number, flags, AttributesOf(name, parentRef, content), false)
  }

  /** The name a scan finds in such a record; the builder writes fixed sizes. */
  function NameIn(name: seq<codeUnit>, parentRef: uint64, isDirectory: bool): (n: MftFileName)
    requires IsAscii(name)
    ensures n.name == name && n.parentRef == parentRef % 0x1_0000_0000_0000 && n.isDirectory == isDirectory
    ensures n.realSize == 1234 && n.nameNamespace == 1
  {
    AsciiName(name);
    MftFileName(parentRef % 0x1_0000_0000_0000, Utf8Name(Utf16le(name)), 1, 0, 4096, 1234, isDirectory)
  }

  lemma AttributesRead(name: seq<codeUnit>, parentRef: uint64, content: Option<seq<byte>>, isDirectory: bool)
    requires IsAscii(name) && IsContent(content)
    ensures forall a :: a in AttributesOf(name, parentRef, content) ==> Appendable(a)
    ensures NamesOf(AttributesOf(name, parentRef, content), isDirectory) == [NameIn(name, parentRef, isDirectory)]
    ensures DatasOf(AttributesOf(name, parentRef, content)) ==
            if content.Some? then [DataAttribute(true, content.value, [], |content.value|)] else []
  {
    var attributes := AttributesOf(name, parentRef, content);
    AsciiName(name);
    SmallLayout(name, parentRef, content);
    assert attributes[0] == FileName(name, parentRef, 1);
    if content.Some? {
      assert attributes[1..] == [ResidentData(content.value)];
      assert attributes[1..][1..] == [];
    } else {
      assert attributes[1..] == [];
    }
    assert NamesOf([], isDirectory) == [] && DatasOf([]) == [];
    assert NamesOf(attributes[1..], isDirectory) == [];
  }

  /** What the readers find in such a record. */
  lemma RecordWithReads(number: nat, flags: nat, name: seq<codeUnit>, parentRef: uint64, content: Option<seq<byte>>,
                        offset: nat)
    requires IsAscii(name) && IsContent(content) && IsNumber(number) && flags <= 0xFFFF
    ensures var block := RecordWith(number, flags, name, parentRef, content);
            && RecordNumberOf(block) == Some(number)
            && DataAttributesOf(block) ==
               (if content.Some? then [DataAttribute(true, content.value, [], |content.value|)] else [])
            && ParsedRecord(block, offset) ==
               Some(MftRecord(number, offset, [NameIn(name, parentRef, flags / 2 % 2 == 1)]))
  {
    SmallLayout(name, parentRef, content);
    AttributesRead(name, parentRef, content, flags / 2 % 2 == 1);
    WholeRecordRoundTrip(number, flags, AttributesOf(name, parentRef, content), offset);
  }

  //
  // The device
  //

  /** A boot sector with one sector of 512 bytes per cluster, filled up to the size of a record. */
  function Boot(): (block: seq<byte>)
    ensures |block| == RECORD_SIZE && block[0] == 0
    ensures block[0x0B] == 0 && block[0x0C] == 2 && block[0x0D] == 1
  {
    Zeros(0x0B) + [0, 2, 1] + Zeros(1010)
  }

  function FourBlocks(p: seq<byte>, q: seq<byte>, r: seq<byte>, s: seq<byte>): Device
    requires |p| == |q| == |r| == |s| == RECORD_SIZE
  {
    DeviceData(p + q + r + s, {})
  }

  /** A root directory and two files in it: their numbers, names and contents. */
  datatype Example = Example(root: nat, r: seq<codeUnit>, above: uint64, m: nat, a: seq<codeUnit>, x: seq<byte>,
                             n: nat, b: seq<codeUnit>, y: seq<byte>) {
    /** The records can be built. */
    predicate Sound() {
      && IsNumber(root) && IsNumber(m) && IsNumber(n)
      && IsAscii(r) && IsAscii(a) && IsAscii(b) && IsSmall(x) && IsSmall(y)
    }

    /** And the names clash once they are sanitised. */
    predicate Valid() {
      && Sound() && m != n && m != root && n != root && above % 0x1_0000_0000_0000 != root
      && a == [0x61, 0x2F, 0x62] + PARTIAL_SUFFIX && b == LETTERS_A_B
    }
  }

  /** There is such an example. */
  lemma AnExample() returns (e: Example)
    ensures e.Valid()
  {
    e := Example(5, [0x72], 1, 10, [0x61, 0x2F, 0x62, 0x2E, 0x70, 0x61, 0x72, 0x74, 0x69, 0x61, 0x6C], [1],
                 11, [0x61, 0x5F, 0x62], [2]);
    assert e.a == [0x61, 0x2F, 0x62] + PARTIAL_SUFFIX;
  }

  /** The rows of the three records. */
  function ExampleRow(e: Example, i: nat): Row
    requires e.Sound()
  {
    if i == 0 then Row(e.root, 1024, NameIn(e.r, e.above, true))
    else if i == 1 then Row(e.m, 2048, NameIn(e.a, e.root, false))
    else Row(e.n, 3072, NameIn(e.b, e.root, false))
  }

  function ExampleRows(e: Example): seq<Row>
    requires e.Sound()
  {
    [ExampleRow(e, 0), ExampleRow(e, 1), ExampleRow(e, 2)]
  }

  /** A block is read as this row and this data, when it stands at the row's offset. */
  ghost predicate IsReadAs(block: seq<byte>, row: Row, datas: seq<DataAttribute>) {
    && |block| == RECORD_SIZE && RecordNumberOf(block) == Some(row.recordIdGuess)
    && ParsedRecord(block, row.offset) == Some(MftRecord(row.recordIdGuess, row.offset, [row.name]))
    && DataAttributesOf(block) == datas
  }

  /** The records of the example. */
  datatype Records = Records(root: seq<byte>, a: seq<byte>, b: seq<byte>) {
    ghost predicate Of(e: Example)
      requires e.Sound()
    {
      && IsReadAs(root, ExampleRow(e, 0), [])
      && IsReadAs(a, ExampleRow(e, 1), [DataAttribute(true, e.x, [], |e.x|)])
      && IsReadAs(b, ExampleRow(e, 2), [DataAttribute(true, e.y, [], |e.y|)])
    }
  }

  method BuildRecord(number: nat, flags: nat, ghost isDirectory: bool, name: seq<codeUnit>, parentRef: uint64,
                     content: Option<seq<byte>>, ghost row: Row) returns (block: seq<byte>)
    requires IsAscii(name) && IsContent(content) && IsNumber(number)
    requires flags <= 0xFFFF && isDirectory == (flags / 2 % 2 == 1)
    requires row == Row(number, row.offset, NameIn(name, parentRef, isDirectory))
    ensures IsReadAs(block, row,
                     if content.Some? then [DataAttribute(true, content.value, [], |content.value|)] else [])
  {
    RecordWithReads(number, flags, name, parentRef, content, row.offset);
    block := RecordWith(number, flags, name, parentRef, content);
  }

  method BuildRoot(e: Example) returns (block: seq<byte>)
    requires e.Sound()
    ensures IsReadAs(block, ExampleRow(e, 0), [])
  {
    block := BuildRecord(e.root, 3, true, e.r, e.above, None, ExampleRow(e, 0));
  }

  method BuildA(e: Example) returns (block: seq<byte>)
    requires e.Sound()
    ensures IsReadAs(block, ExampleRow(e, 1), [DataAttribute(true, e.x, [], |e.x|)])
  {
    block := BuildRecord(e.m, 1, false, e.a, e.root, Some(e.x), ExampleRow(e, 1));
  }

  method BuildB(e: Example) returns (block: seq<byte>)
    requires e.Sound()
    ensures IsReadAs(block, ExampleRow(e, 2), [DataAttribute(true, e.y, [], |e.y|)])
  {
    block := BuildRecord(e.n, 1, false, e.b, e.root, Some(e.y), ExampleRow(e, 2));
  }

  /** The builder can write them. */
  method BuildRecords(e: Example) returns (records: Records)
    requires e.Sound()
    ensures records.Of(e)
  {
    var root := BuildRoot(e);
    var a := BuildA(e);
    var b := BuildB(e);
    records := Records(root, a, b);
  }

  /** The boot sector, the root directory and the two files in it. */
  ghost predicate IsExampleDevice(d: Device, e: Example, records: Records) {
    e.Valid() && records.Of(e) && d == FourBlocks(Boot(), records.root, records.a, records.b)
  }

  lemma BlocksOfFour(p: seq<byte>, q: seq<byte>, r: seq<byte>, s: seq<byte>)
    requires |p| == |q| == |r| == |s| == RECORD_SIZE
    ensures var d := FourBlocks(p, q, r, s);
            && BlocksReadable(d, 4) && !BlockReadable(d, 4)
            && Block(d, 0) == p && Block(d, 1) == q && Block(d, 2) == r && Block(d, 3) == s
  {
    var d := FourBlocks(p, q, r, s);
    forall k | 0 <= k < 4
      ensures BlockReadable(d, k)
    {
    }
    assert d.bytes[0..1024] == p && d.bytes[1024..2048] == q && d.bytes[2048..3072] == r && d.bytes[3072..4096] == s;
  }

  lemma BootGeometry(p: seq<byte>, q: seq<byte>, r: seq<byte>, s: seq<byte>)
    requires |p| == |q| == |r| == |s| == RECORD_SIZE && p[0x0B] == 0 && p[0x0C] == 2 && p[0x0D] == 1
    ensures ClusterSizeOf(FourBlocks(p, q, r, s)) == Some(512)
  {
    var boot := Range(FourBlocks(p, q, r, s), 0, 512);
    assert forall i :: 0 <= i < 512 ==> boot[i] == p[i];
    assert Word16(boot, 0x0B) == 512;
  }

  lemma NoSignature(block: seq<byte>, offset: nat)
    requires |block| == RECORD_SIZE && block[0] == 0
    ensures RecordNumberOf(block) == None && ScanOf(block, offset) == BlockScan(false, None)
  {
    assert block[..4][0] == 0 && FILE_SIGNATURE[0] == 0x46;
  }

  lemma ReadAsRow(block: seq<byte>, row: Row, datas: seq<DataAttribute>)
    requires IsReadAs(block, row, datas)
    ensures RowsIn(ScanOf(block, row.offset)) == [row]
  {
  }

  lemma {:induction false} RowsOfFour(scans: seq<BlockScan>, q: Row, r: Row, s: Row)
    requires |scans| == 4 && RowsIn(scans[0]) == []
    requires RowsIn(scans[1]) == [q] && RowsIn(scans[2]) == [r] && RowsIn(scans[3]) == [s]
    ensures ScannedRows(scans) == [q, r, s]
  {
    assert scans[..3][..2] == scans[..2] && scans[..2][..1] == scans[..1] && scans[..1][..0] == [];
    assert ScannedRows(scans[..0]) == [];
    assert ScannedRows(scans[..1]) == [];
    assert ScannedRows(scans[..2]) == [q];
    assert ScannedRows(scans[..3]) == [q, r];
  }

  lemma {:induction false} FourScans(d: Device, scans: seq<BlockScan>, k: nat)
    requires AreScans(d, scans) && !BlockReadable(d, |scans|) && BlocksReadable(d, 4) && !BlockReadable(d, 4) && k < 4
    ensures |scans| == 4 && scans[k] == ScanOf(Block(d, k), RECORD_SIZE * k)
  {
    assert |scans| == 4;
    assert scans[k] == ScanOf(Block(d, k), RECORD_SIZE * k);
  }

  /** A scan of the device leaves these three rows. */
  lemma {:induction false} DeviceScans(d: Device, e: Example, records: Records, scans: seq<BlockScan>)
    requires IsExampleDevice(d, e, records) && AreScans(d, scans) && !BlockReadable(d, |scans|)
    ensures ScannedRows(scans) == ExampleRows(e)
  {
    BlocksOfFour(Boot(), records.root, records.a, records.b);
    FourScans(d, scans, 0);
    FourScans(d, scans, 1);
    FourScans(d, scans, 2);
    FourScans(d, scans, 3);
    NoSignature(Boot(), 0);
    ReadAsRow(records.root, ExampleRow(e, 0), []);
    ReadAsRow(records.a, ExampleRow(e, 1), [DataAttribute(true, e.x, [], |e.x|)]);
    ReadAsRow(records.b, ExampleRow(e, 2), [DataAttribute(true, e.y, [], |e.y|)]);
    RowsOfFour(scans, ExampleRow(e, 0), ExampleRow(e, 1), ExampleRow(e, 2));
  }

  lemma DeviceReads(d: Device, e: Example, records: Records)
    requires IsExampleDevice(d, e, records)
    ensures FirstBlock(d, e.m, 2) && FirstBlock(d, e.n, 3)
    ensures DataAttributesOf(Block(d, 2)) == [DataAttribute(true, e.x, [], |e.x|)]
    ensures DataAttributesOf(Block(d, 3)) == [DataAttribute(true, e.y, [], |e.y|)]
  {
    BlocksOfFour(Boot(), records.root, records.a, records.b);
    NoSignature(Boot(), 0);
    FirstOfFour(d, e.root, e.m, e.n);
  }

  //
  // The run
  //

  lemma StoredFields(e: Example)
    requires e.Valid()
    ensures var stored := Stored(ExampleRows(e));
            && stored[0].parentRef != e.root && stored[0].recordIdGuess == e.root
            && stored[1].recordIdGuess == e.m && stored[2].recordIdGuess == e.n
            && IsPair(stored[1], stored[2], e.root)
            && stored[1].realSize == 1234 && stored[2].realSize == 1234
  {
    assert e.root % 0x1_0000_0000_0000 == e.root;
  }

  lemma ThreeElements(stored: seq<StoredRecord>, root: nat)
    requires |stored| == 3 && stored[0].parentRef != root && IsPair(stored[1], stored[2], root)
    ensures HoldsPair(Elements(stored), stored[1], stored[2], root) && stored[0] in Elements(stored)
  {
    assert Elements(stored) == {stored[0], stored[1], stored[2]};
  }

  lemma StoredPair(e: Example)
    requires e.Valid()
    ensures var stored := Stored(ExampleRows(e));
            && HoldsPair(Elements(stored), stored[1], stored[2], e.root)
            && stored[0] in Elements(stored) && stored[0].recordIdGuess == e.root
  {
    StoredFields(e);
    ThreeElements(Stored(ExampleRows(e)), e.root);
  }

  lemma ExampleCanRun(d: Device, e: Example, records: Records)
    requires IsExampleDevice(d, e, records)
    ensures CanRun(d, Elements(Stored(ExampleRows(e))), e.root)
  {
    var stored := Stored(ExampleRows(e));
    BootGeometry(Boot(), records.root, records.a, records.b);
    StoredPair(e);
    PairIsCollected(Elements(stored), stored[1], stored[2], e.root);
  }

  lemma FirstOfFour(d: Device, root: nat, m: nat, n: nat)
    requires BlocksReadable(d, 4) && m != n && m != root && n != root
    requires NumberAt(d, 0) == None && NumberAt(d, 1) == Some(root)
    requires NumberAt(d, 2) == Some(m) && NumberAt(d, 3) == Some(n)
    ensures FirstBlock(d, m, 2) && FirstBlock(d, n, 3)
  {
    var f := FirstBlockBefore(d, m, 2);
    assert f != 0 && f != 1;
    var g := FirstBlockBefore(d, n, 3);
    assert g != 0 && g != 1 && g != 2;
  }

  lemma ResidentFileJob(d: Device, records: map<nat, seq<byte>>, clusterSize: uint64, target: Path,
                        record: StoredRecord, k: nat, content: seq<byte>, wanted: set<nat>)
    requires Located(d, wanted, records) && record.recordIdGuess in wanted && FirstBlock(d, record.recordIdGuess, k)
    requires IsSmall(content) && record.realSize == 1234
    requires DataAttributesOf(Block(d, k)) == [DataAttribute(true, content, [], |content|)]
    ensures FileJob(d, records, clusterSize, target, record) == Job(target, false, true, Some(content))
  {
    assert records[record.recordIdGuess] == Block(d, k);
  }

  lemma SameTwoJobs(jobs: seq<Job>, p: Job, q: Job)
    requires |jobs| == 2 && jobs[0] == p && jobs[1] == q
    ensures jobs == [p, q]
  {
  }

  /** The two jobs of the run. */
  lemma PairJobs(run: Ran, d: Device, e: Example, records: Records, a: StoredRecord, b: StoredRecord, items: seq<Item>,
                 destination: Path, first: Nodes, nodes: Nodes)
    requires IsExampleDevice(d, e, records) && a.recordIdGuess == e.m && b.recordIdGuess == e.n
    requires a.realSize == 1234 == b.realSize && !a.isDirectory && !b.isDirectory
    requires items == [Item(a, [LETTERS_A_B + PARTIAL_SUFFIX]), Item(b, [LETTERS_A_B])]
    requires IsRun(run, d, items, destination, first, nodes, true, true)
    ensures run.setting.jobs == [Job(destination + [LETTERS_A_B + PARTIAL_SUFFIX], false, true, Some(e.x)),
                                 Job(destination + [LETTERS_A_B], false, true, Some(e.y))]
  {
    var jobs := run.setting.jobs;
    DeviceReads(d, e, records);
    assert items[0] in items && items[1] in items;
    assert jobs[0] == JobOf(d, run.records, run.clusterSize, destination, items[0]);
    assert jobs[1] == JobOf(d, run.records, run.clusterSize, destination, items[1]);
    ResidentFileJob(d, run.records, run.clusterSize, destination + items[0].path, a, 2, e.x, FileIds(items));
    ResidentFileJob(d, run.records, run.clusterSize, destination + items[1].path, b, 3, e.y, FileIds(items));
    SameTwoJobs(jobs, Job(destination + [LETTERS_A_B + PARTIAL_SUFFIX], false, true, Some(e.x)),
                Job(destination + [LETTERS_A_B], false, true, Some(e.y)));
  }

  /** Nothing is in the way of the two files and of the second one's partial file. */
  ghost predicate IsClear(nodes: Nodes, destination: Path) {
    && PathFree(nodes, destination)
    && CanOpen(nodes, destination + [LETTERS_A_B + PARTIAL_SUFFIX], true)
    && CanOpen(nodes, destination + [LETTERS_A_B], true)
  }

  lemma PairOpens(jobs: seq<Job>, destination: Path, first: Nodes, x: seq<byte>, y: seq<byte>)
    requires jobs == [Job(destination + [LETTERS_A_B + PARTIAL_SUFFIX], false, true, Some(x)),
                      Job(destination + [LETTERS_A_B], false, true, Some(y))]
    requires IsClear(first, destination)
    ensures Clashes(jobs, 0, 1) && Recovers(first, jobs, true, 0) && Recovers(first, jobs, true, 1)
  {
    var target, clashing := jobs[1].target, jobs[0].target;
    assert target[..|target| - 1] == destination && target[|target| - 1] == LETTERS_A_B;
    assert clashing[..|clashing| - 1] == destination;
  }

  /** What a quiet overwriting run over the pair leaves. */
  lemma PairRun(s: Setting, destination: Path, x: seq<byte>, y: seq<byte>, stats: RecoverStats, recovered: set<nat>,
                made: nat, nodes: Nodes)
    requires IsExact(s) && s.overwrite && IsClear(s.first, destination)
    requires s.jobs == [Job(destination + [LETTERS_A_B + PARTIAL_SUFFIX], false, true, Some(x)),
                        Job(destination + [LETTERS_A_B], false, true, Some(y))]
    requires Tallied(stats, recovered, made, 2, 2) && RunUpTo(s, 2, recovered, nodes, true)
    ensures recovered == {0, 1} && stats == RecoverStats(2, 2, 0)
    ensures At(nodes, destination + [LETTERS_A_B + PARTIAL_SUFFIX]) == None
    ensures At(nodes, destination + [LETTERS_A_B]) == Some(Regular(y))
  {
    PairRecovers(s, destination, x, y);
    PairResult(s, nodes);
    PairRecovered(recovered);
  }

  lemma PairRecovers(s: Setting, destination: Path, x: seq<byte>, y: seq<byte>)
    requires IsExact(s) && s.overwrite && IsClear(s.first, destination)
    requires s.jobs == [Job(destination + [LETTERS_A_B + PARTIAL_SUFFIX], false, true, Some(x)),
                        Job(destination + [LETTERS_A_B], false, true, Some(y))]
    ensures Clashes(s.jobs, 0, 1) && s.Recovered(0) && s.Recovered(1)
  {
    PairOpens(s.jobs, destination, s.first, x, y);
    assert 0 in s.openers && 1 in s.openers;
  }

  lemma PairRecovered(recovered: set<nat>)
    requires 0 in recovered && 1 in recovered && forall i :: i in recovered ==> i < 2
    ensures recovered == {0, 1} && |recovered| == 2
  {
    assert recovered == {0, 1};
  }

  lemma PairResult(s: Setting, nodes: Nodes)
    requires s.Valid() && |s.jobs| == 2 && IsState(s, 2, 2, nodes) && s.Recovered(0) && s.Recovered(1)
    requires Clashes(s.jobs, 0, 1)
    ensures At(nodes, s.jobs[0].target) == None
    ensures At(nodes, s.jobs[1].target) == Some(Regular(s.jobs[1].content.value))
  {
    FinalContents(s, nodes, 0);
    FinalContents(s, nodes, 1);
  }

  /** Main result: overwriting can lose a file. From this device, with undisturbed calls, scanning and then recovering
      the root directory into any destination that is clear counts both files as recovered, and leaves only the
      second, whatever else is there. */
  method OverwritingLosesAFile(e: Example, destination: Path, nodes: Nodes, interruptions: nat)
    returns (stats: Option<RecoverStats>, after: Nodes)
    requires e.Valid() && HasRoot(nodes) && IsClear(nodes, destination)
    ensures stats == Some(RecoverStats(2, 2, 0))
    ensures At(after, destination + [LETTERS_A_B + PARTIAL_SUFFIX]) == None
    ensures At(after, destination + [LETTERS_A_B]) == Some(Regular(e.y))
  {
    var records := BuildRecords(e);
    var device := FourBlocks(Boot(), records.root, records.a, records.b);
    var source := new Source(device, interruptions, true);
    var fs := new FileSystem(true, nodes, interruptions);
    ghost var scans, items, run;
    var scanned;
    scanned, stats, scans, items, run := ScanThenRecover(source, fs, None, e.root, destination, true, false);
    DeviceScans(device, e, records, scans);
    ghost var stored := Stored(ExampleRows(e));
    ExampleCanRun(device, e, records);
    StoredPair(e);
    StoredFields(e);
    PairIsCollected(Elements(stored), stored[1], stored[2], e.root);
    PairJobs(run.value, device, e, records, stored[1], stored[2], items, destination, nodes, fs.nodes);
    PairRun(run.value.setting, destination, e.x, e.y, run.value.stats, run.value.recovered, run.value.directoriesMade,
            fs.nodes);
    after := fs.nodes;
  }
}
