/** Which files a scan and a recovery bring back, when nothing disturbs them. */
module Completeness {
  import opened Options
  import opened LittleEndian
  import opened Names
  import opened Siblings
  import opened CollectTree
  import opened TreeProperties
  import opened Placement
  import opened MftRecord
  import opened RecordFormat
  import opened RecordRoundTrip
  import opened Devices
  import opened LocateRecords
  import opened Scanner
  import opened FileSystems
  import opened Directories
  import opened AtomicFiles
  import opened FileRecovery
  import opened Jobs
  import opened RecoverRun
  import opened Overwriting
  import opened Pipeline

  /** No two of the first blocks hold records of one number, and no record has the number zero. */
  ghost predicate DistinctNumbers(d: Device, n: nat)
    requires BlocksReadable(d, n)
  {
    forall k :: 0 <= k < n && NumberAt(d, k).Some? ==>
                  NumberAt(d, k).value != 0 && forall j :: 0 <= j < k ==> NumberAt(d, j) != NumberAt(d, k)
  }

  /** The destination can be made, and there is nothing in it. */
  ghost predicate IsEmptyDestination(nodes: Nodes, destination: Path) {
    PathFree(nodes, destination) && forall p :: destination < p ==> At(nodes, p).None?
  }

  /** The items that a recovery collects from the rows of a scan. */
  ghost function ItemsOf(scans: seq<BlockScan>, root: nat): seq<Item>
    requires CollectedTree(Elements(Stored(ScannedRows(scans))), root).Some?
  {
    CollectedTree(Elements(Stored(ScannedRows(scans))), root).value.items
  }

  /** Where numbers are distinct, the block an item was scanned from is the block its data is read from. */
  lemma ItemBlock(d: Device, scans: seq<BlockScan>, root: nat, i: nat) returns (k: nat)
    requires AreScans(d, scans) && DistinctNumbers(d, |scans|)
    requires CollectedTree(Elements(Stored(ScannedRows(scans))), root).Some? && i < |ItemsOf(scans, root)|
    ensures var record := ItemsOf(scans, root)[i].record;
            && k < |scans| && FirstBlock(d, record.recordIdGuess, k) && record.offset == RECORD_SIZE * k
            && ParsedRecord(Block(d, k), RECORD_SIZE * k).Some?
            && exists name :: name in ParsedRecord(Block(d, k), RECORD_SIZE * k).value.names
                              && record == StoredRow(Row(record.recordIdGuess, record.offset, name), record.id)
  {
    var row := ItemIsRow(scans, root, i);
    k := RowBlock(scans, row);
    assert scans[k] == ScanOf(Block(d, k), RECORD_SIZE * k);
    RowNumber(Block(d, k), RECORD_SIZE * k);
    assert NumberAt(d, k) == Some(row.recordIdGuess);
    assert row == Row(row.recordIdGuess, row.offset, row.name);
  }

  lemma EmptyIsFree(first: Nodes, destination: Path, job: Job)
    requires IsEmptyDestination(first, destination) && job.Sound() && destination < job.target
    ensures PathFree(first, Home(job)) && CanOpen(first, job.target, true) && CanOpen(first, job.target, false)
    ensures At(first, PartialOf(job.target)).None?
  {
    var home := Home(job);
    assert destination <= home;
    forall k | 0 < k <= |home|
      ensures At(first, home[..k]).None? || At(first, home[..k]) == Some(Directory)
    {
      if k <= |destination| {
        assert home[..k] == destination[..k];
      } else {
        assert destination < home[..k];
      }
    }
    assert destination < PartialOf(job.target);
  }

  /** Into an empty destination a file is recovered exactly when it has content and its partial name is no directory of
      the plan and, unless overwriting, no earlier recovered file. */
  lemma RecoversIntoEmpty(run: Ran, d: Device, items: seq<Item>, destination: Path, first: Nodes, nodes: Nodes,
                          overwrite: bool, i: nat)
    requires IsRun(run, d, items, destination, first, nodes, overwrite, true) && i < |items|
    requires IsEmptyDestination(first, destination)
    ensures var jobs := run.setting.jobs;
            i in run.recovered <==>
              && jobs[i].content.Some? && !PartialIsDirectory(jobs, i)
              && (!overwrite ==> forall m: nat :: m in run.recovered ==> !Clashes(jobs, m, i))
  {
    var jobs := run.setting.jobs;
    assert jobs[i].Sound() && destination < jobs[i].target;
    EmptyIsFree(first, destination, jobs[i]);
    SurvivalIsExact(run, d, items, destination, first, nodes, overwrite, i);
    forall m: nat | Clashes(jobs, m, i)
      ensures m in run.recovered <==> Recovers(first, jobs, overwrite, m)
    {
      SurvivalIsExact(run, d, items, destination, first, nodes, overwrite, m);
    }
  }

  /** Main result: nothing gets lost on the way. After a scan of a device whose records have distinct numbers and a
      quiet recovery into an empty destination, a collected file was recovered exactly when the content of its own
      record can be had, unless its partial name is taken by a directory of the plan or, without overwriting, by an
      earlier file; and it then stands at the end, unless a later file was written over it. */
  lemma FilesComeBack(run: Ran, d: Device, scans: seq<BlockScan>, root: nat, destination: Path, first: Nodes,
                      nodes: Nodes, overwrite: bool, i: nat) returns (k: nat, content: Option<seq<byte>>)
    requires AreScans(d, scans) && DistinctNumbers(d, |scans|)
    requires CollectedTree(Elements(Stored(ScannedRows(scans))), root).Some? && i < |ItemsOf(scans, root)|
    requires IsRun(run, d, ItemsOf(scans, root), destination, first, nodes, overwrite, true)
    requires IsEmptyDestination(first, destination) && !ItemsOf(scans, root)[i].record.isDirectory
    ensures var item, jobs := ItemsOf(scans, root)[i], run.setting.jobs;
            && k < |scans| && item.record.offset == RECORD_SIZE * k && NumberAt(d, k) == Some(item.record.recordIdGuess)
            && content == ContentOf(d, ChosenData(item.record, DataAttributesOf(Block(d, k))), run.clusterSize)
            && (i in run.recovered <==>
                  && content.Some? && !PartialIsDirectory(jobs, i)
                  && (!overwrite ==> forall m: nat :: m in run.recovered ==> !Clashes(jobs, m, i)))
            && (i in run.recovered && (!overwrite || Unclashed(jobs, i)) ==>
                  At(nodes, destination + item.path) == Some(Regular(content.value)))
  {
    var items := ItemsOf(scans, root);
    var record, jobs := items[i].record, run.setting.jobs;
    k := ItemBlock(d, scans, root, i);
    assert jobs[i] == JobOf(d, run.records, run.clusterSize, destination, items[i]);
    assert record.recordIdGuess in FileIds(items) by { assert items[i] in items; }
    assert run.records[record.recordIdGuess] == Block(d, k);
    content := jobs[i].content;
    RecoversIntoEmpty(run, d, items, destination, first, nodes, overwrite, i);
  }

  /** Main result: a run has what it needs if and only if the boot sector has a geometry, a row has the root's number,
      and no two surviving rows of a reachable directory get names that are equal but for case. */
  lemma CanRunIff(d: Device, rows: set<StoredRecord>, root: nat)
    ensures CanRun(d, rows, root) <==>
            && HasGeometry(d) && (exists r :: r in rows && r.recordIdGuess == root)
            && !exists n, p, q :: Reachable(rows, root, n) && p in Children(rows, n) && q in Children(rows, n) && p != q
                                  && SameNameButCase(Sanitized(p.name), Sanitized(q.name))
  {
    ClusterSizeIff(d);
    CollectionFailsIff(rows, root);
  }

  //
  // Devices of built records
  //

  /** What the builder was told about a record. */
  datatype Spec = Spec(number: nat, flags: nat, attributes: seq<Appended>) {
    predicate Sound() { Fits(attributes) && 0 < number <= ATTRIBUTE_END && flags <= 0xFFFF }

    predicate IsDirectory() { flags / 2 % 2 == 1 }
  }

  /** The blocks of the device are records that were built, or hold none, and the numbers are distinct. */
  ghost predicate HoldsRecords(d: Device, specs: seq<Option<Spec>>) {
    && BlocksReadable(d, |specs|)
    && (forall k :: 0 <= k < |specs| ==> IsBlockOf(d, k, specs[k]))
    && (forall j, k :: 0 <= j < k < |specs| && specs[j].Some? && specs[k].Some? ==>
                         specs[j].value.number != specs[k].value.number)
  }

  ghost predicate IsBlockOf(d: Device, k: nat, spec: Option<Spec>)
    requires BlockReadable(d, k)
  {
    if spec.None? then NumberAt(d, k).None?
    else spec.value.Sound()
         && Block(d, k) == Built(spec.value.number, spec.value.flags, spec.value.attributes, false)
  }

  /** What the readers find in a built record. */
  lemma BlockReads(d: Device, k: nat, spec: Spec)
    requires BlockReadable(d, k) && IsBlockOf(d, k, Some(spec))
    ensures NumberAt(d, k) == Some(spec.number) && DataAttributesOf(Block(d, k)) == DatasOf(spec.attributes)
    ensures var names := NamesOf(spec.attributes, spec.IsDirectory());
            ParsedRecord(Block(d, k), RECORD_SIZE * k) ==
            if names == [] then None else Some(MftRecord(spec.number, RECORD_SIZE * k, names))
  {
    WholeRecordRoundTrip(spec.number, spec.flags, spec.attributes, RECORD_SIZE * k);
  }

  lemma BuiltNumbersAreDistinct(d: Device, specs: seq<Option<Spec>>)
    requires HoldsRecords(d, specs)
    ensures DistinctNumbers(d, |specs|)
  {
    forall k | 0 <= k < |specs|
      ensures NumberAt(d, k) == if specs[k].Some? then Some(specs[k].value.number) else None
      ensures specs[k].Some? ==> specs[k].value.number != 0
    {
      assert IsBlockOf(d, k, specs[k]);
      if specs[k].Some? {
        BlockReads(d, k, specs[k].value);
      }
    }
  }

  lemma {:induction false} RowIsScanned(scans: seq<BlockScan>, k: nat, row: Row)
    requires k < |scans| && row in RowsIn(scans[k])
    ensures row in ScannedRows(scans)
    decreases |scans|
  {
    var n := |scans| - 1;
    if k < n {
      assert scans[..n][k] == scans[k];
      RowIsScanned(scans[..n], k, row);
    }
  }

  /** Main result: a scan leaves a row for every name of every record that was built. */
  lemma NamesAreScanned(d: Device, specs: seq<Option<Spec>>, scans: seq<BlockScan>, k: nat, name: MftFileName)
    requires HoldsRecords(d, specs) && AreScans(d, scans) && |scans| == |specs|
    requires k < |specs| && specs[k].Some?
    requires name in NamesOf(specs[k].value.attributes, specs[k].value.IsDirectory())
    ensures Row(specs[k].value.number, RECORD_SIZE * k, name) in ScannedRows(scans)
  {
    var spec := specs[k].value;
    var names := NamesOf(spec.attributes, spec.IsDirectory());
    assert IsBlockOf(d, k, specs[k]);
    BlockReads(d, k, spec);
    assert scans[k] == ScanOf(Block(d, k), RECORD_SIZE * k);
    var e :| 0 <= e < |names| && names[e] == name;
    assert RowsIn(scans[k])[e] == Row(spec.number, RECORD_SIZE * k, name);
    RowIsScanned(scans, k, Row(spec.number, RECORD_SIZE * k, name));
  }

  lemma {:induction false} BuiltNameSize(attributes: seq<Appended>, isDirectory: bool, name: MftFileName)
    requires name in NamesOf(attributes, isDirectory)
    ensures name.realSize == 1234
  {
    if NameOf(attributes[0], isDirectory) != Some(name) {
      BuiltNameSize(attributes[1..], isDirectory, name);
    }
  }

  /** An item comes from a built record, and the first data attribute appended to it is the one chosen. */
  lemma BuiltItem(d: Device, specs: seq<Option<Spec>>, k: nat, record: StoredRecord, name: MftFileName)
    requires HoldsRecords(d, specs) && k < |specs| && ParsedRecord(Block(d, k), RECORD_SIZE * k).Some?
    requires name in ParsedRecord(Block(d, k), RECORD_SIZE * k).value.names && record.realSize == name.realSize
    ensures specs[k].Some? && specs[k].value.Sound() && NumberAt(d, k) == Some(specs[k].value.number)
    ensures name in NamesOf(specs[k].value.attributes, specs[k].value.IsDirectory())
    ensures var datas := DatasOf(specs[k].value.attributes);
            ChosenData(record, DataAttributesOf(Block(d, k))) ==
            if datas != [] && datas[0].realSize <= 1234 then Some(datas[0]) else None
  {
    assert IsBlockOf(d, k, specs[k]);
    assert NumberAt(d, k).Some?;
    var spec := specs[k].value;
    BlockReads(d, k, spec);
    BuiltNameSize(spec.attributes, spec.IsDirectory(), name);
  }

  /** Main result: what was written comes back. From a device of built records with distinct numbers, a collected file
      gets the content of the first data attribute appended to its record, if that can be read and is not larger than
      the size in the names the builder writes, unless its partial name is taken. */
  lemma BuiltFilesComeBack(run: Ran, d: Device, specs: seq<Option<Spec>>, scans: seq<BlockScan>, root: nat,
                           destination: Path, first: Nodes, nodes: Nodes, overwrite: bool, i: nat) returns (k: nat)
    requires HoldsRecords(d, specs) && AreScans(d, scans) && |scans| == |specs|
    requires CollectedTree(Elements(Stored(ScannedRows(scans))), root).Some? && i < |ItemsOf(scans, root)|
    requires IsRun(run, d, ItemsOf(scans, root), destination, first, nodes, overwrite, true)
    requires IsEmptyDestination(first, destination) && !ItemsOf(scans, root)[i].record.isDirectory
    ensures k < |specs| && specs[k].Some? && specs[k].value.Sound()
    ensures var item, jobs, spec := ItemsOf(scans, root)[i], run.setting.jobs, specs[k].value;
            var datas := DatasOf(spec.attributes);
            && item.record.recordIdGuess == spec.number
            && (exists name :: name in NamesOf(spec.attributes, spec.IsDirectory())
                               && item.record == StoredRow(Row(spec.number, RECORD_SIZE * k, name), item.record.id))
            && (i in run.recovered <==>
                  && datas != [] && datas[0].realSize <= 1234
                  && AttributeContent(d, datas[0], run.clusterSize).Some? && !PartialIsDirectory(jobs, i)
                  && (!overwrite ==> forall m: nat :: m in run.recovered ==> !Clashes(jobs, m, i)))
            && (i in run.recovered && (!overwrite || Unclashed(jobs, i)) ==>
                  At(nodes, destination + item.path) ==
                  Some(Regular(AttributeContent(d, datas[0], run.clusterSize).value)))
  {
    var record := ItemsOf(scans, root)[i].record;
    var content;
    BuiltNumbersAreDistinct(d, specs);
    k, content := FilesComeBack(run, d, scans, root, destination, first, nodes, overwrite, i);
    var block := ItemBlock(d, scans, root, i);
    assert block == k;
    var name :| name in ParsedRecord(Block(d, k), RECORD_SIZE * k).value.names
                && record == StoredRow(Row(record.recordIdGuess, record.offset, name), record.id);
    BuiltItem(d, specs, k, record, name);
  }
}
