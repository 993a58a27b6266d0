/** The scan that indexes every FILE record of the source device. */
module Scanner {
  import opened Options
  import opened Sequences
  import opened LittleEndian
  import opened MachineInts
  import opened MftRecord
  import opened Devices
  import opened LocateRecords

  /** A row inserted into the index. */
  datatype Row = Row(recordIdGuess: nat, offset: nat, name: MftFileName)

  datatype ScanStats = ScanStats(bytesScanned: nat, candidates: nat, validRecords: nat, insertedNames: nat,
                                 targetMatches: nat)

  //
  // What a scan yields
  //

  function RowsOf(record: MftRecord, names: seq<MftFileName>): (rows: seq<Row>)
    ensures |rows| == |names|
    ensures forall i :: 0 <= i < |names| ==> rows[i] == Row(record.recordIdGuess, record.offset, names[i])
  {
    seq(|names|, i requires 0 <= i < |names| => Row(record.recordIdGuess, record.offset, names[i]))
  }

  /** What the scan makes of one block: whether it has the signature, and the record it parses to. */
  datatype BlockScan = BlockScan(candidate: bool, record: Option<MftRecord>) {
    predicate Sound() { record.Some? ==> candidate && record.value.names != [] }
  }

  function ScanOf(block: seq<byte>, offset: nat): (scan: BlockScan)
    ensures scan.Sound()
  {
    BlockScan(HasSignature(block), ParsedRecord(block, offset))
  }

  /** The scans of the first blocks of the device. */
  ghost predicate AreScans(d: Device, scans: seq<BlockScan>) {
    && BlocksReadable(d, |scans|)
    && forall k {:trigger ScanOf(Block(d, k), RECORD_SIZE * k)} :: 0 <= k < |scans| ==>
         scans[k] == ScanOf(Block(d, k), RECORD_SIZE * k)
  }

  function RowsIn(scan: BlockScan): seq<Row> {
    if scan.record.Some? then RowsOf(scan.record.value, scan.record.value.names) else []
  }

  function ScannedRows(scans: seq<BlockScan>): seq<Row> {
    if scans == [] then []
    else
      var n := |scans| - 1;
      ScannedRows(scans[..n]) + RowsIn(scans[n])
  }

  function CandidatesIn(scans: seq<BlockScan>): nat {
    if scans == [] then 0
    else
      var n := |scans| - 1;
      CandidatesIn(scans[..n]) + if scans[n].candidate then 1 else 0
  }

  function ValidIn(scans: seq<BlockScan>): nat {
    if scans == [] then 0
    else
      var n := |scans| - 1;
      ValidIn(scans[..n]) + if scans[n].record.Some? then 1 else 0
  }

  /** How many rows have the name the user asked for. */
  function Matches(rows: seq<Row>, target: Option<seq<byte>>): nat {
    if rows == [] then 0
    else
      var last := rows[|rows| - 1];
      Matches(rows[..|rows| - 1], target) + if target == Some(last.name.name) then 1 else 0
  }

  function ScannedStats(scans: seq<BlockScan>, target: Option<seq<byte>>): ScanStats {
    var rows := ScannedRows(scans);
    ScanStats(RECORD_SIZE * |scans|, CandidatesIn(scans), ValidIn(scans), |rows|, Matches(rows, target))
  }

  /** A byte of block `k` that exists but cannot be read. */
  ghost predicate TailIsBad(d: Device, k: nat) {
    exists i :: RECORD_SIZE * k <= i < RECORD_SIZE * (k + 1) && i < |d.bytes| && i in d.bad
  }

  //
  // Properties of a scan
  //

  /** Main result: the counters of a scan agree with each other after every block. */
  lemma {:induction false} CountersAgree(scans: seq<BlockScan>, target: Option<seq<byte>>)
    requires forall scan :: scan in scans ==> scan.Sound()
    ensures var stats := ScannedStats(scans, target);
            && stats.validRecords <= stats.candidates <= |scans|
            && stats.validRecords <= stats.insertedNames == |ScannedRows(scans)|
            && stats.targetMatches <= stats.insertedNames
  {
    MatchesBound(ScannedRows(scans), target);
    if scans != [] {
      var n := |scans| - 1;
      assert scans[n] in scans;
      CountersAgree(scans[..n], target);
    }
  }

  /** Block `k` of the device begins with the signature. */
  predicate HasSignatureAt(d: Device, k: nat) {
    1024 * k + 4 <= |d.bytes| && d.bytes[1024 * k..1024 * k + 4] == [0x46, 0x49, 0x4C, 0x45]
  }

  /** Block `k` can be read and parses to a record. */
  predicate HoldsRecordAt(d: Device, k: nat) {
    BlockReadable(d, k) && ParsedRecord(Block(d, k), 1024 * k).Some?
  }

  predicate HasTarget(rows: seq<Row>, i: nat, target: Option<seq<byte>>) {
    i < |rows| && target == Some(rows[i].name.name)
  }

  lemma OneMore(p: nat -> bool, n: nat)
    ensures (set k: nat | k < n + 1 && p(k)) == (set k: nat | k < n && p(k)) + if p(n) then {n} else {}
    ensures |set k: nat | k < n + 1 && p(k)| == |set k: nat | k < n && p(k)| + if p(n) then 1 else 0
  {
    var before, after := set k: nat | k < n && p(k), set k: nat | k < n + 1 && p(k);
    assert after == before + if p(n) then {n} else {};
  }

  lemma SignatureOfBlock(d: Device, k: nat)
    requires BlockReadable(d, k)
    ensures HasSignature(Block(d, k)) == HasSignatureAt(d, k)
  {
    assert Block(d, k)[..4] == d.bytes[1024 * k..1024 * k + 4];
  }

  lemma {:induction false} CandidatesCount(d: Device, scans: seq<BlockScan>, p: nat -> bool)
    requires AreScans(d, scans) && forall k: nat :: p(k) == HasSignatureAt(d, k)
    ensures CandidatesIn(scans) == |set k: nat | k < |scans| && p(k)|
  {
    if scans != [] {
      var n := |scans| - 1;
      FewerScans(d, scans);
      CandidatesCount(d, scans[..n], p);
      SignatureOfBlock(d, n);
      OneMore(p, n);
    }
  }

  lemma {:induction false} ValidCount(d: Device, scans: seq<BlockScan>, p: nat -> bool)
    requires AreScans(d, scans) && forall k: nat :: p(k) == HoldsRecordAt(d, k)
    ensures ValidIn(scans) == |set k: nat | k < |scans| && p(k)|
  {
    if scans != [] {
      var n := |scans| - 1;
      FewerScans(d, scans);
      ValidCount(d, scans[..n], p);
      OneMore(p, n);
    }
  }

  lemma FewerScans(d: Device, scans: seq<BlockScan>)
    requires AreScans(d, scans) && scans != []
    ensures AreScans(d, scans[..|scans| - 1]) && BlockReadable(d, |scans| - 1)
    ensures scans[|scans| - 1] == ScanOf(Block(d, |scans| - 1), RECORD_SIZE * (|scans| - 1))
  {
  }

  lemma {:induction false} MatchesCount(rows: seq<Row>, target: Option<seq<byte>>, p: nat -> bool)
    requires forall i: nat :: i < |rows| ==> p(i) == HasTarget(rows, i, target)
    ensures Matches(rows, target) == |set i: nat | i < |rows| && p(i)|
  {
    if rows != [] {
      var n := |rows| - 1;
      MatchesCount(rows[..n], target, p);
      assert p(n) == HasTarget(rows, n, target);
      OneMore(p, n);
    }
  }

  /** Main result: the counters are what their names say: the bytes of the blocks, the blocks with the signature, those
      that parse to a record, the rows, and the rows with the name the user asked for. */
  lemma CountersCount(d: Device, scans: seq<BlockScan>, target: Option<seq<byte>>)
    requires AreScans(d, scans)
    ensures var stats, rows := ScannedStats(scans, target), ScannedRows(scans);
            && stats.bytesScanned == 1024 * |scans|
            && stats.candidates == |set k: nat | k < |scans| && HasSignatureAt(d, k)|
            && stats.validRecords == |set k: nat | k < |scans| && HoldsRecordAt(d, k)|
            && stats.insertedNames == |rows|
            && stats.targetMatches == |set i: nat | i < |rows| && HasTarget(rows, i, target)|
  {
    var rows := ScannedRows(scans);
    var signed, valid, wanted := (k: nat) => HasSignatureAt(d, k), (k: nat) => HoldsRecordAt(d, k),
                                 (i: nat) => HasTarget(rows, i, target);
    CandidatesCount(d, scans, signed);
    ValidCount(d, scans, valid);
    MatchesCount(rows, target, wanted);
    assert (set k: nat | k < |scans| && signed(k)) == set k: nat | k < |scans| && HasSignatureAt(d, k);
    assert (set k: nat | k < |scans| && valid(k)) == set k: nat | k < |scans| && HoldsRecordAt(d, k);
    assert (set i: nat | i < |rows| && wanted(i)) == set i: nat | i < |rows| && HasTarget(rows, i, target);
  }

  /** Main result: the rows of a scan are the names of the blocks' records, block after block and in order. */
  lemma {:induction false} RowsInOrder(scans: seq<BlockScan>, k: nat, e: nat)
    requires k < |scans| && scans[k].record.Some? && e < |scans[k].record.value.names|
    ensures var record, at := scans[k].record.value, |ScannedRows(scans[..k])| + e;
            && at < |ScannedRows(scans)|
            && ScannedRows(scans)[at] == Row(record.recordIdGuess, record.offset, record.names[e])
    decreases |scans|
  {
    var n := |scans| - 1;
    var before, last := ScannedRows(scans[..n]), RowsIn(scans[n]);
    assert ScannedRows(scans) == before + last;
    if k < n {
      assert scans[..n][..k] == scans[..k] && scans[..n][k] == scans[k];
      RowsInOrder(scans[..n], k, e);
    } else {
      assert (before + last)[|before| + e] == last[e];
    }
  }

  /** Nothing else is in the rows: there are as many as the blocks have names. */
  lemma {:induction false} RowsOfBlock(scans: seq<BlockScan>, k: nat)
    requires k < |scans|
    ensures |ScannedRows(scans[..k + 1])| ==
            |ScannedRows(scans[..k])| + if scans[k].record.Some? then |scans[k].record.value.names| else 0
    ensures ScannedRows([]) == []
  {
    assert scans[..k + 1][..k] == scans[..k];
  }

  lemma {:induction false} MatchesBound(rows: seq<Row>, target: Option<seq<byte>>)
    ensures Matches(rows, target) <= |rows|
  {
    if rows != [] {
      MatchesBound(rows[..|rows| - 1], target);
    }
  }

  /** The number a row is filed under is the number in the header, or the block's position when that is zero. */
  lemma RowNumber(block: seq<byte>, offset: nat)
    requires ParsedRecord(block, offset).Some?
    ensures var record, number := ParsedRecord(block, offset).value, RecordNumberOf(block);
            && number.Some? && record.offset == offset
            && record.recordIdGuess == if number.value != 0 then number.value else offset / RECORD_SIZE
  {
  }

  lemma {:induction false} RowBlock(scans: seq<BlockScan>, row: Row) returns (k: nat)
    requires row in ScannedRows(scans)
    ensures k < |scans| && scans[k].record.Some?
    ensures var record := scans[k].record.value;
            row.recordIdGuess == record.recordIdGuess && row.offset == record.offset && row.name in record.names
  {
    var n := |scans| - 1;
    if row in ScannedRows(scans[..n]) {
      k := RowBlock(scans[..n], row);
    } else {
      k := n;
      assert row in RowsIn(scans[k]);
    }
  }

  /** Main result: for a row indexed from a block with a non-zero header number, recovery finds a block at or before
      the row's offset with the row's number. In general the row's block answers to the row's number exactly when its
      header number is not zero, or it is the very first block. */
  lemma ScanAndRecoveryAgree(d: Device, scans: seq<BlockScan>, row: Row, wanted: set<nat>, found: map<nat, seq<byte>>)
    requires AreScans(d, scans) && row in ScannedRows(scans)
    requires Located(d, wanted, found) && row.recordIdGuess in wanted
    ensures var k := row.offset / RECORD_SIZE;
            && k < |scans| && row.offset == RECORD_SIZE * k && NumberAt(d, k).Some?
            && (NumberAt(d, k) == Some(row.recordIdGuess) <==> NumberAt(d, k).value != 0 || k == 0)
            && (NumberAt(d, k).value != 0 ==>
                  && row.recordIdGuess in found
                  && exists first: nat :: first <= k && FirstBlock(d, row.recordIdGuess, first)
                                          && found[row.recordIdGuess] == Block(d, first))
  {
    var k := RowBlock(scans, row);
    assert scans[k] == ScanOf(Block(d, k), RECORD_SIZE * k);
    RowNumber(Block(d, k), RECORD_SIZE * k);
    assert row.offset / RECORD_SIZE == k;
    if NumberAt(d, k).value != 0 {
      var first := FirstBlockBefore(d, row.recordIdGuess, k);
    }
  }

  //
  // The source's procedure
  //

  datatype Fill = Filled(n: nat) | ReadFailed

  /** Reads until the buffer is full or the device ends. */
  method FillBuffer(source: Source, buffer: array<byte>) returns (r: Fill)
    requires source.position <= |source.device.bytes|
    modifies source, buffer
    ensures source.position <= |source.device.bytes|
    ensures r.Filled? ==> r.n <= buffer.Length && Readable(source.device, old(source.position), r.n)
    ensures r.Filled? ==> source.position == old(source.position) + r.n
    ensures r.Filled? && r.n < buffer.Length ==> source.position == |source.device.bytes|
    ensures r == Filled(buffer.Length) ==> buffer[..] == Range(source.device, old(source.position), buffer.Length)
    ensures r.ReadFailed? ==> exists i :: old(source.position) <= i < old(source.position) + buffer.Length
                                          && i < |source.device.bytes| && i in source.device.bad
  {
    ghost var start := source.position;
    var filled := 0;
    while filled < buffer.Length
      invariant 0 <= filled <= buffer.Length && Readable(source.device, start, filled)
      invariant source.position == start + filled <= |source.device.bytes|
      invariant buffer[..filled] == Range(source.device, start, filled)
      decreases source.interruptions + buffer.Length - filled
    {
      ghost var got := buffer[..filled];
      var count := source.Read(buffer, filled, buffer.Length - filled);
      assert buffer[..filled] == got;
      match count {
        case Interrupted =>
        case Failed => return ReadFailed;
        case Count(n) =>
          if n == 0 {
            break;
          }
          RangeJoins(source.device, start, filled, n);
          assert buffer[..filled + n] == got + buffer[filled..filled + n];
          filled := filled + n;
      }
    }
    return Filled(filled);
  }

  method InsertNames(record: MftRecord, target: Option<seq<byte>>, rows: seq<Row>, stats: ScanStats)
    returns (rows': seq<Row>, stats': ScanStats)
    requires stats.insertedNames == |rows| && stats.targetMatches == Matches(rows, target)
    ensures rows' == rows + RowsOf(record, record.names)
    ensures stats' == stats.(insertedNames := |rows'|, targetMatches := Matches(rows', target))
  {
    rows', stats' := rows, stats;
    for k := 0 to |record.names|
      invariant rows' == rows + RowsOf(record, record.names[..k])
      invariant stats' == stats.(insertedNames := |rows'|, targetMatches := Matches(rows', target))
    {
      var name := record.names[k];
      ghost var before := rows';
      rows' := rows' + [Row(record.recordIdGuess, record.offset, name)];
      stats' := stats'.(insertedNames := stats'.insertedNames + 1);
      if target.Some? && name.name == target.value {
        stats' := stats'.(targetMatches := stats'.targetMatches + 1);
      }
      assert rows'[..|rows'| - 1] == before;
      assert rows' == rows + RowsOf(record, record.names[..k + 1]);
    }
    assert record.names[..|record.names|] == record.names;
  }

  /** Parses the next block, only when it has the signature. */
  method ParseBlock(block: seq<byte>, offset: nat, ghost d: Device, ghost scans: seq<BlockScan>)
    returns (scan: BlockScan)
    requires AreScans(d, scans) && BlockReadable(d, |scans|)
    requires block == Block(d, |scans|) && offset == RECORD_SIZE * |scans|
    ensures scan.Sound() && AreScans(d, scans + [scan])
  {
    if block[..4] != FILE_SIGNATURE {
      scan := BlockScan(false, None);
    } else {
      var record := Parse(block, offset);
      scan := BlockScan(true, record);
    }
    OneMoreScan(d, scans, scan);
  }

  method CountBlock(scan: BlockScan, target: Option<seq<byte>>, rows: seq<Row>, stats: ScanStats)
    returns (rows': seq<Row>, stats': ScanStats)
    requires scan.Sound()
    requires stats.insertedNames == |rows| && stats.targetMatches == Matches(rows, target)
    ensures rows' == rows + RowsIn(scan)
    ensures stats' == Counted(stats, scan, rows', target)
  {
    rows', stats' := rows, stats;
    if scan.candidate {
      stats' := stats'.(candidates := stats'.candidates + 1);
      if scan.record.Some? {
        stats' := stats'.(validRecords := stats'.validRecords + 1);
        rows', stats' := InsertNames(scan.record.value, target, rows', stats');
      }
    }
    NothingAdded(rows);
  }

  /** The counters after one more block. */
  function Counted(stats: ScanStats, scan: BlockScan, rows: seq<Row>, target: Option<seq<byte>>): ScanStats {
    ScanStats(stats.bytesScanned, stats.candidates + (if scan.candidate then 1 else 0),
              stats.validRecords + (if scan.record.Some? then 1 else 0), |rows|, Matches(rows, target))
  }

  lemma OneMoreScanned(scans: seq<BlockScan>, scan: BlockScan, target: Option<seq<byte>>)
    ensures ScannedRows(scans + [scan]) == ScannedRows(scans) + RowsIn(scan)
    ensures ScannedStats(scans + [scan], target) ==
            Counted(ScannedStats(scans, target), scan, ScannedRows(scans + [scan]), target).(
              bytesScanned := RECORD_SIZE * (|scans| + 1))
  {
    var all := scans + [scan];
    assert all[..|all| - 1] == scans;
  }

  lemma OneMoreScan(d: Device, scans: seq<BlockScan>, scan: BlockScan)
    requires AreScans(d, scans) && BlockReadable(d, |scans|)
    requires scan == ScanOf(Block(d, |scans|), RECORD_SIZE * |scans|)
    ensures AreScans(d, scans + [scan])
  {
  }

  /** Main result: the scan reads whole blocks up to the first that is not readable, and leaves exactly the rows and
      counters of those blocks. It throws exactly when that block has a bad byte; the rows are kept even then. */
  method Run(source: Source, target: Option<seq<byte>>)
    returns (result: Option<ScanStats>, rows: seq<Row>, ghost scans: seq<BlockScan>)
    requires source.position == 0
    modifies source
    ensures AreScans(source.device, scans) && !BlockReadable(source.device, |scans|)
    ensures rows == ScannedRows(scans)
    ensures result.None? <==> TailIsBad(source.device, |scans|)
    ensures result.Some? ==> result.value == ScannedStats(scans, target)
  {
    var buffer := new byte[RECORD_SIZE](_ => 0);
    var offset: uint64 := 0;
    var stats := ScanStats(0, 0, 0, 0, 0);
    rows, scans := [], [];
    while true
      invariant offset == RECORD_SIZE * |scans| == source.position && offset <= |source.device.bytes|
      invariant AreScans(source.device, scans)
      invariant rows == ScannedRows(scans) && stats == ScannedStats(scans, target)
      decreases |source.device.bytes| - offset
    {
      var filled := FillBuffer(source, buffer);
      if filled.ReadFailed? {
        return None, rows, scans;
      }
      if filled.n < buffer.Length {
        break;
      }
      assert buffer[..] == Block(source.device, |scans|);
      var scan := ParseBlock(buffer[..], offset, source.device, scans);
      OneMoreScanned(scans, scan, target);
      rows, stats := CountBlock(scan, target, rows, stats);
      offset := offset + RECORD_SIZE;
      stats := stats.(bytesScanned := offset);
      scans := scans + [scan];
    }
    return Some(stats), rows, scans;
  }
}
