/** What copying runs gives, said on the run's fields and the device's bytes. */
module CopyBytes {
  import opened LittleEndian
  import opened MachineInts
  import opened DataRuns
  import opened Devices
  import opened CopyRuns
  import opened Siblings
  import opened MftRecord
  import opened FileRecovery
  import opened Options

  /** Where each run begins in the data, and where the last one ends. */
  ghost predicate AreBegins(runs: seq<DataRun>, clusterSize: uint64, begins: seq<nat>) {
    && |begins| == |runs| + 1 && begins[0] == 0
    && forall k :: 0 <= k < |runs| ==> IsNextBegin(runs, clusterSize, begins, k)
  }

  predicate IsNextBegin(runs: seq<DataRun>, clusterSize: uint64, begins: seq<nat>, k: int)
    requires 0 <= k < |runs| && |begins| == |runs| + 1
  {
    begins[k + 1] == begins[k] + runs[k].clusterCount * clusterSize
  }

  /** The size of the run, and its offset if it has one, are 64-bit numbers. */
  predicate FitsWords(run: DataRun, clusterSize: uint64) {
    && run.clusterCount * clusterSize < 0x1_0000_0000_0000_0000
    && (!run.sparse ==> run.lcn * clusterSize < 0x1_0000_0000_0000_0000)
  }

  /** Byte `i` of a run can be had from the device. */
  predicate CanRead(d: Device, run: DataRun, clusterSize: uint64, i: nat) {
    run.sparse || (run.lcn * clusterSize + i < |d.bytes| && run.lcn * clusterSize + i !in d.bad)
  }

  /** Byte `i` lies in run `k`. */
  predicate IsIn(begins: seq<nat>, k: nat, i: nat) {
    k + 1 < |begins| && begins[k] <= i < begins[k + 1]
  }

  lemma {:induction false} BeginsAreStarts(runs: seq<DataRun>, clusterSize: uint64, begins: seq<nat>, k: nat)
    requires AreBegins(runs, clusterSize, begins) && k <= |runs|
    ensures StartOf(runs, clusterSize, k) == begins[k]
  {
    if k > 0 {
      BeginsAreStarts(runs, clusterSize, begins, k - 1);
      assert IsNextBegin(runs, clusterSize, begins, k - 1);
      FlatSizeOfOneMore(runs[..k], clusterSize);
      assert runs[..k][..k - 1] == runs[..k - 1];
    }
  }

  lemma {:induction false} FlatSizeOfOneMore(runs: seq<DataRun>, clusterSize: uint64)
    requires runs != []
    ensures var n := |runs| - 1;
            FlatSize(runs, clusterSize) == FlatSize(runs[..n], clusterSize) + RunSize(runs[n], clusterSize)
  {
    var n := |runs| - 1;
    if n > 0 {
      FlatSizeOfOneMore(runs[1..], clusterSize);
      assert runs[..n][1..] == runs[1..][..n - 1];
    } else {
      assert runs[1..] == [] && runs[..n] == [];
    }
  }

  lemma {:induction false} PlaceInKth(runs: seq<DataRun>, clusterSize: uint64, k: nat, i: nat)
    requires k < |runs| && StartOf(runs, clusterSize, k) <= i < StartOf(runs, clusterSize, k + 1)
    ensures PlaceAt(runs, clusterSize, i) == PlaceInRun(runs[k], clusterSize, i - StartOf(runs, clusterSize, k))
    decreases k
  {
    StartOfFirst(runs, clusterSize);
    if k == 0 {
      StartOfNext(runs, clusterSize, 0);
      StartOfFirst(runs[1..], clusterSize);
    } else {
      StartOfNext(runs, clusterSize, k);
      StartOfNext(runs, clusterSize, k - 1);
      PlaceInKth(runs[1..], clusterSize, k - 1, i - RunSize(runs[0], clusterSize));
    }
  }

  /** Every byte of the data lies in a run. */
  lemma {:induction false} RunOfByte(begins: seq<nat>, n: nat, i: nat) returns (k: nat)
    requires 0 < |begins| && begins[0] == 0 && n < |begins| && i < begins[n]
    ensures k < n && IsIn(begins, k, i)
  {
    if begins[n - 1] <= i {
      k := n - 1;
    } else {
      k := RunOfByte(begins, n - 1, i);
    }
  }

  lemma PlaceOfByte(d: Device, runs: seq<DataRun>, clusterSize: uint64, begins: seq<nat>, k: nat, i: nat)
    requires AreBegins(runs, clusterSize, begins) && IsIn(begins, k, i)
    ensures var place := PlaceAt(runs, clusterSize, i);
            && (PlaceReadable(d, place) <==> CanRead(d, runs[k], clusterSize, i - begins[k]))
            && (PlaceReadable(d, place) ==>
                  ByteOf(d, place) ==
                  if runs[k].sparse then 0 else d.bytes[runs[k].lcn * clusterSize + (i - begins[k])])
  {
    BeginsAreStarts(runs, clusterSize, begins, k);
    BeginsAreStarts(runs, clusterSize, begins, k + 1);
    PlaceInKth(runs, clusterSize, k, i);
  }

  /** Every byte before `n` can be had from its run. */
  ghost predicate CanReadAll(d: Device, runs: seq<DataRun>, clusterSize: uint64, begins: seq<nat>, n: nat)
    requires |begins| == |runs| + 1
  {
    forall k: nat, i: nat :: i < n && IsIn(begins, k, i) ==> CanRead(d, runs[k], clusterSize, i - begins[k])
  }

  /** Every byte is the one of its run. */
  ghost predicate AreBytes(d: Device, runs: seq<DataRun>, clusterSize: uint64, begins: seq<nat>, bytes: seq<byte>)
    requires |begins| == |runs| + 1 && CanReadAll(d, runs, clusterSize, begins, |bytes|)
  {
    forall k: nat, i: nat :: i < |bytes| && IsIn(begins, k, i) ==>
                               bytes[i] == ByteOfRun(d, runs[k], clusterSize, i - begins[k])
  }

  function ByteOfRun(d: Device, run: DataRun, clusterSize: uint64, i: nat): byte
    requires CanRead(d, run, clusterSize, i)
  {
    if run.sparse then 0 else d.bytes[run.lcn * clusterSize + i]
  }

  /** The runs that are reached before `n` bytes have sizes and offsets of 64 bits. */
  ghost predicate AllFit(runs: seq<DataRun>, clusterSize: uint64, begins: seq<nat>, n: nat)
    requires |begins| == |runs| + 1
  {
    forall k :: 0 <= k < |runs| && begins[k] < n ==> FitsWords(runs[k], clusterSize)
  }

  lemma ReadableIff(d: Device, runs: seq<DataRun>, clusterSize: uint64, begins: seq<nat>, n: nat)
    requires AreBegins(runs, clusterSize, begins) && n <= begins[|runs|]
    ensures AllReadable(d, runs, clusterSize, n) <==> CanReadAll(d, runs, clusterSize, begins, n)
  {
    if AllReadable(d, runs, clusterSize, n) {
      forall k: nat, i: nat | i < n && IsIn(begins, k, i)
        ensures CanRead(d, runs[k], clusterSize, i - begins[k])
      {
        assert PlaceReadable(d, PlaceAt(runs, clusterSize, i));
        PlaceOfByte(d, runs, clusterSize, begins, k, i);
      }
    }
    if CanReadAll(d, runs, clusterSize, begins, n) {
      forall i | 0 <= i < n
        ensures PlaceReadable(d, PlaceAt(runs, clusterSize, i))
      {
        var k := RunOfByte(begins, |runs|, i);
        PlaceOfByte(d, runs, clusterSize, begins, k, i);
      }
    }
  }

  lemma BytesAreOfRuns(d: Device, runs: seq<DataRun>, clusterSize: uint64, begins: seq<nat>, bytes: seq<byte>)
    requires AreBegins(runs, clusterSize, begins) && CanReadAll(d, runs, clusterSize, begins, |bytes|)
    requires forall i :: 0 <= i < |bytes| ==>
                           && PlaceReadable(d, PlaceAt(runs, clusterSize, i))
                           && bytes[i] == ByteOf(d, PlaceAt(runs, clusterSize, i))
    ensures AreBytes(d, runs, clusterSize, begins, bytes)
  {
    forall k: nat, i: nat | i < |bytes| && IsIn(begins, k, i)
      ensures bytes[i] == ByteOfRun(d, runs[k], clusterSize, i - begins[k])
    {
      PlaceOfByte(d, runs, clusterSize, begins, k, i);
    }
  }

  lemma NoOverflowIff(runs: seq<DataRun>, clusterSize: uint64, begins: seq<nat>, n: nat)
    requires AreBegins(runs, clusterSize, begins)
    ensures NoOverflow(runs, clusterSize, n) <==> AllFit(runs, clusterSize, begins, n)
  {
    forall k | 0 <= k < |runs|
      ensures StartOf(runs, clusterSize, k) == begins[k]
      ensures Overflows(runs[k], clusterSize) <==> !FitsWords(runs[k], clusterSize)
    {
      BeginsAreStarts(runs, clusterSize, begins, k);
    }
  }

  /** Main result: copying succeeds exactly when the runs hold enough clusters, the sizes and offsets of the runs that
      are reached are 64-bit numbers, and every byte that is needed can be had; and then byte `i` of run `k` is the
      device's byte that far behind cluster `lcn`, or zero in a hole. */
  lemma CopyIsExact(d: Device, runs: seq<DataRun>, clusterSize: uint64, begins: seq<nat>, n: nat)
    requires AreBegins(runs, clusterSize, begins)
    ensures var o := CopyOutcome(d, runs, clusterSize, n);
            && (o.Copied? <==> n <= begins[|runs|] && AllFit(runs, clusterSize, begins, n)
                               && CanReadAll(d, runs, clusterSize, begins, n))
            && (o.Copied? ==> |o.bytes| == n && AreBytes(d, runs, clusterSize, begins, o.bytes))
  {
    CopyRefinesFlatView(d, runs, clusterSize, n);
    BeginsAreStarts(runs, clusterSize, begins, |runs|);
    assert runs[..|runs|] == runs;
    NoOverflowIff(runs, clusterSize, begins, n);
    if n <= begins[|runs|] {
      ReadableIff(d, runs, clusterSize, begins, n);
      var o := CopyOutcome(d, runs, clusterSize, n);
      if o.Copied? {
        BytesAreOfRuns(d, runs, clusterSize, begins, o.bytes);
      }
    }
  }

  /** Every list of runs has such beginnings. */
  lemma {:induction false} BeginsExist(runs: seq<DataRun>, clusterSize: uint64) returns (begins: seq<nat>)
    ensures AreBegins(runs, clusterSize, begins)
  {
    if runs == [] {
      begins := [0];
    } else {
      var n := |runs| - 1;
      var before := BeginsExist(runs[..n], clusterSize);
      begins := before + [before[n] + runs[n].clusterCount * clusterSize];
      forall k | 0 <= k < |runs|
        ensures IsNextBegin(runs, clusterSize, begins, k)
      {
        assert k < n ==> IsNextBegin(runs[..n], clusterSize, before, k);
      }
    }
  }

  /** Main result: what a file gets is the payload of its record's first data attribute, or the bytes of that
      attribute's runs up to its size; and it gets nothing when there is no such attribute, the index knows of a smaller
      size that is not zero, or the runs cannot be copied. */
  lemma ContentIff(d: Device, record: StoredRecord, mftBytes: seq<byte>, clusterSize: uint64, begins: seq<nat>,
                   content: seq<byte>)
    requires DataAttributesOf(mftBytes) != [] ==> AreBegins(DataAttributesOf(mftBytes)[0].runs, clusterSize, begins)
    ensures ContentOf(d, ChosenData(record, DataAttributesOf(mftBytes)), clusterSize) == Some(content) <==>
            && DataAttributesOf(mftBytes) != []
            && var data := DataAttributesOf(mftBytes)[0];
               && (record.realSize == 0 || data.realSize <= record.realSize)
               && if data.resident then content == data.residentData
                  else
                    && |content| == data.realSize <= begins[|data.runs|]
                    && AllFit(data.runs, clusterSize, begins, |content|)
                    && CanReadAll(d, data.runs, clusterSize, begins, |content|)
                    && AreBytes(d, data.runs, clusterSize, begins, content)
  {
    var datas := DataAttributesOf(mftBytes);
    if datas != [] && !datas[0].resident {
      var data := datas[0];
      CopyIsExact(d, data.runs, clusterSize, begins, data.realSize);
      var o := CopyOutcome(d, data.runs, clusterSize, data.realSize);
      if o.Copied? && |content| == data.realSize && AreBytes(d, data.runs, clusterSize, begins, content) {
        SameBytes(d, data.runs, clusterSize, begins, content, o.bytes);
      }
    }
  }

  lemma SameBytes(d: Device, runs: seq<DataRun>, clusterSize: uint64, begins: seq<nat>, a: seq<byte>, b: seq<byte>)
    requires AreBegins(runs, clusterSize, begins) && |a| == |b| <= begins[|runs|]
    requires CanReadAll(d, runs, clusterSize, begins, |a|)
    requires AreBytes(d, runs, clusterSize, begins, a) && AreBytes(d, runs, clusterSize, begins, b)
    ensures a == b
  {
    forall i | 0 <= i < |a|
      ensures a[i] == b[i]
    {
      var k := RunOfByte(begins, |runs|, i);
      assert a[i] == ByteOfRun(d, runs[k], clusterSize, i - begins[k]);
    }
  }
}
