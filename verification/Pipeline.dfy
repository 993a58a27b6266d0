/** Scanning a device and recovering from the rows of the scan. */
module Pipeline {
  import opened Options
  import opened LittleEndian
  import opened MachineInts
  import opened Names
  import opened Siblings
  import opened CollectTree
  import opened TreeProperties
  import opened MftRecord
  import opened Devices
  import opened LocateRecords
  import opened Scanner
  import opened FileSystems
  import opened Directories
  import opened FileRecovery
  import opened RecoverRun
  import opened Overwriting

  /** A row as the index stores it; ids are given out in the order of insertion. */
  function StoredRow(row: Row, id: int): StoredRecord {
    var name := row.name;
    StoredRecord(id, row.recordIdGuess, row.offset, name.parentRef, name.name, name.nameNamespace, name.flags,
                 name.allocatedSize, name.realSize, name.isDirectory)
  }

  /** What a recovery reads from an index that held nothing before the scan. */
  function Stored(rows: seq<Row>): (stored: seq<StoredRecord>)
    ensures |stored| == |rows| && forall i :: 0 <= i < |rows| ==> stored[i] == StoredRow(rows[i], i + 1)
  {
    seq(|rows|, i requires 0 <= i < |rows| => StoredRow(rows[i], i + 1))
  }

  lemma StoredIdsAreDistinct(rows: seq<Row>)
    ensures DistinctIds(Elements(Stored(rows)))
  {
    var stored := Stored(rows);
    forall p, q | p in Elements(stored) && q in Elements(stored) && p.id == q.id
      ensures p == q
    {
      var i :| 0 <= i < |stored| && stored[i] == p;
      var j :| 0 <= j < |stored| && stored[j] == q;
    }
  }

  /** Scans a device into an empty index and recovers a tree from it. The rows of a scan that throws are kept. */
  method ScanThenRecover(source: Source, fs: FileSystem, target: Option<seq<byte>>, rootRecordId: nat,
                         destination: Path, overwrite: bool, dryRun: bool)
    returns (scanned: Option<ScanStats>, stats: Option<RecoverStats>, ghost scans: seq<BlockScan>,
             ghost items: seq<Item>, ghost run: Option<Ran>)
    requires source.position == 0 && fs.Valid()
    modifies source, fs
    ensures fs.Valid() && old(fs.log) <= fs.log
    ensures AreScans(source.device, scans) && !BlockReadable(source.device, |scans|)
    ensures scanned.None? <==> TailIsBad(source.device, |scans|)
    ensures stats.None? ==> Preserves(old(fs.nodes), fs.nodes, {})
    ensures var rows := Elements(Stored(ScannedRows(scans)));
            && (stats.Some? ==> CanRun(source.device, rows, rootRecordId)
                                && items == CollectedTree(rows, rootRecordId).value.items)
            && (fs.quiet && source.steady ==>
                  (stats.Some? <==> CanRun(source.device, rows, rootRecordId)
                                    && (dryRun || PathFree(old(fs.nodes), destination))))
    ensures stats.Some? && !dryRun ==>
              && run.Some? && stats.value == run.value.stats
              && Some(run.value.clusterSize) == ClusterSizeOf(source.device)
              && fs.log == old(fs.log) + run.value.Calls()
              && IsRun(run.value, source.device, items, destination, old(fs.nodes), fs.nodes, overwrite, fs.quiet)
  {
    var rows;
    scanned, rows, scans := Scanner.Run(source, target);
    StoredIdsAreDistinct(rows);
    stats, items, run := RecoverRun.Run(source, fs, Stored(rows), rootRecordId, destination, overwrite, dryRun);
  }

  /** The item of a recovered file is a row of the scan. */
  lemma ItemIsRow(scans: seq<BlockScan>, root: nat, i: nat) returns (row: Row)
    requires CollectedTree(Elements(Stored(ScannedRows(scans))), root).Some?
    requires i < |CollectedTree(Elements(Stored(ScannedRows(scans))), root).value.items|
    ensures row in ScannedRows(scans)
    ensures var record := CollectedTree(Elements(Stored(ScannedRows(scans))), root).value.items[i].record;
            record == StoredRow(row, record.id)
  {
    var stored := Stored(ScannedRows(scans));
    var items := CollectedTree(Elements(stored), root).value.items;
    ItemsAreChildrenOnce(Elements(stored), root);
    assert RecordsOf(items)[i] == items[i].record;
    assert items[i].record in RecordsOf(items);
    var k :| 0 <= k < |stored| && stored[k] == items[i].record;
    row := ScannedRows(scans)[k];
  }

  /** Where the name and the content of a recovered file come from: the name from block `k`, the content from `f`, the
      first block with the item's number. */
  ghost predicate ComesFrom(d: Device, scans: seq<BlockScan>, clusterSize: uint64, record: StoredRecord,
                            content: seq<byte>, k: nat, f: nat) {
    && k < |scans| && scans[k].record.Some? && record.offset == RECORD_SIZE * k
    && (exists name :: name in scans[k].record.value.names &&
                        name.name == record.name && name.parentRef == record.parentRef)
    && FirstBlock(d, record.recordIdGuess, f)
    && ContentOf(d, ChosenData(record, DataAttributesOf(Block(d, f))), clusterSize) == Some(content)
    && NumberAt(d, f) == Some(record.recordIdGuess)
  }

  /** Main result: after a scan and a recovery of one device, a recovered file (that no later file was written over)
      holds the full content of the first record with its number, under a name that the scan parsed from a record;
      and when that record's header has a number, the first record with it stands at or before it. */
  lemma ScannedFilesComeBack(run: Ran, d: Device, scans: seq<BlockScan>, root: nat, destination: Path, first: Nodes,
                             nodes: Nodes, overwrite: bool, quiet: bool, i: nat)
    returns (content: seq<byte>, k: nat, f: nat)
    requires AreScans(d, scans) && CollectedTree(Elements(Stored(ScannedRows(scans))), root).Some?
    requires IsRun(run, d, CollectedTree(Elements(Stored(ScannedRows(scans))), root).value.items, destination, first,
                   nodes, overwrite, quiet)
    requires i in run.recovered && (!overwrite || Unclashed(run.setting.jobs, i))
    ensures var item := CollectedTree(Elements(Stored(ScannedRows(scans))), root).value.items[i];
            && At(nodes, destination + item.path) == Some(Regular(content))
            && ComesFrom(d, scans, run.clusterSize, item.record, content, k, f)
            && NumberAt(d, k).Some? && (NumberAt(d, k).value != 0 ==> f <= k)
  {
    var items := CollectedTree(Elements(Stored(ScannedRows(scans))), root).value.items;
    var record := items[i].record;
    RecoveredFilesHoldTheirContent(run, d, items, destination, first, nodes, overwrite, quiet, i);
    content :| IsContentOf(d, run.clusterSize, record, content)
               && At(nodes, destination + items[i].path) == Some(Regular(content));
    f :| FirstBlock(d, record.recordIdGuess, f)
         && ContentOf(d, ChosenData(record, DataAttributesOf(Block(d, f))), run.clusterSize) == Some(content);
    var row := ItemIsRow(scans, root, i);
    k := RowBlock(scans, row);
    assert scans[k] == ScanOf(Block(d, k), RECORD_SIZE * k);
    RowNumber(Block(d, k), RECORD_SIZE * k);
    if NumberAt(d, k).value != 0 {
      var g := FirstBlockBefore(d, record.recordIdGuess, k);
      FirstBlockUnique(d, record.recordIdGuess, f, g);
    }
  }
}
