/** Recovering one file from its FILE record. */
module FileRecovery {
  import opened Options
  import opened Sequences
  import opened LittleEndian
  import opened MachineInts
  import opened Names
  import opened Siblings
  import opened MftRecord
  import opened Devices
  import opened FileSystems
  import opened AtomicFiles
  import opened CopyRuns

  /** The data attribute that is copied: the first, unless the record has none or the index says it is shorter. */
  function ChosenData(record: StoredRecord, attributes: seq<DataAttribute>): Option<DataAttribute> {
    if attributes == [] || (record.realSize != 0 && record.realSize < attributes[0].realSize) then None
    else Some(attributes[0])
  }

  /** The full content of an attribute, if it can be had from the device. */
  function AttributeContent(d: Device, data: DataAttribute, clusterSize: uint64): Option<seq<byte>> {
    if data.resident then Some(data.residentData)
    else
      var o := CopyOutcome(d, data.runs, clusterSize, data.realSize);
      if o.Copied? then Some(o.bytes) else None
  }

  /** The content recovery can give a file whose chosen attribute is `chosen`. */
  function ContentOf(d: Device, chosen: Option<DataAttribute>, clusterSize: uint64): Option<seq<byte>> {
    if chosen.Some? then AttributeContent(d, chosen.value, clusterSize) else None
  }

  /** Main result: a file is skipped for its attributes only when its record has no data attribute or the index knows
      of a smaller size that is not zero; otherwise the first data attribute is copied. */
  lemma ChosenIff(record: StoredRecord, mftBytes: seq<byte>)
    ensures var datas, chosen := DataAttributesOf(mftBytes), ChosenData(record, DataAttributesOf(mftBytes));
            && (chosen.None? <==> |datas| == 0 || 0 < record.realSize < datas[0].realSize)
            && (chosen.Some? ==> chosen.value == datas[0])
            && (record.realSize == 0 && chosen.None? ==> |datas| == 0)
  {
  }

  lemma FirstIsWhole(mftBytes: seq<byte>)
    ensures DataAttributesOf(mftBytes) != [] ==> WholeAttribute(DataAttributesOf(mftBytes)[0])
  {
    var restored := RestoredRecord(mftBytes);
    if restored.Some? {
      DataAttributesAreWhole(restored.value, AttributesFrom(restored.value, FirstAttribute(restored.value)));
    }
  }

  /** Main result: whatever the record holds, the content is as long as the attribute that is copied says, and the
      index does not know of a smaller size. */
  lemma ContentIsWhole(d: Device, record: StoredRecord, mftBytes: seq<byte>, clusterSize: uint64)
    requires ContentOf(d, ChosenData(record, DataAttributesOf(mftBytes)), clusterSize).Some?
    ensures DataAttributesOf(mftBytes) != []
    ensures var content := ContentOf(d, ChosenData(record, DataAttributesOf(mftBytes)), clusterSize).value;
            && |content| == DataAttributesOf(mftBytes)[0].realSize
            && (record.realSize != 0 ==> |content| <= record.realSize)
  {
    FirstIsWhole(mftBytes);
  }

  /** Reads the attributes and picks the one to copy. */
  method ChooseData(record: StoredRecord, mftBytes: seq<byte>) returns (chosen: Option<DataAttribute>)
    ensures chosen == ChosenData(record, DataAttributesOf(mftBytes))
    ensures chosen.Some? ==> WholeAttribute(chosen.value)
  {
    FirstIsWhole(mftBytes);
    var attributes := DataAttributes(mftBytes);
    if attributes == [] {
      return None;
    }
    if record.realSize != 0 && record.realSize < attributes[0].realSize {
      return None;
    }
    return Some(attributes[0]);
  }

  /** Writes the attribute's content to the partial file. */
  method WriteContent(source: Source, data: DataAttribute, clusterSize: uint64, out: AtomicFile) returns (r: CopyResult)
    requires WholeAttribute(data) && out.Valid() && out.fdOpen && out.content == []
    modifies source`interruptions, out.fs, out`content
    ensures out.Valid() && out.fdOpen
    ensures r.Done? ==> AttributeContent(source.device, data, clusterSize) == Some(out.content)
    ensures !r.Done? ==> AttributeContent(source.device, data, clusterSize).None? || !out.fs.quiet
  {
    var bytesToCopy := data.realSize;
    if data.resident {
      var count := Min(bytesToCopy, |data.residentData|);
      assert data.residentData[..count] == data.residentData;
      NothingAdded(data.residentData);
      var ok := out.Write(data.residentData[..count]);
      if !ok {
        return Thrown;
      }
      if count != bytesToCopy {
        assert false;
        return NotDone;
      }
      return Done;
    }
    r := CopyNonresident(source, data.runs, clusterSize, bytesToCopy, out);
    if r.Done? {
      NothingAdded(CopyOutcome(source.device, data.runs, clusterSize, bytesToCopy).bytes);
    }
  }

  /** The last steps of a successful copy: the commit, and the destructor whether or not it throws. */
  method Finish(out: AtomicFile) returns (published: bool)
    requires out.Valid() && out.fdOpen
    modifies out.fs`nodes, out.fs`log, out`fdOpen, out`committed
    ensures var fs := out.fs;
            && fs.Valid() && out.earlier <= fs.log
            && SafeEffects(fs.log, |out.earlier|, out.finalPath, Some(out.content), out.overwrite)
            && (!published ==>
                  FailedPublication(fs.log, |out.earlier|, 1, out.finalPath, Some(out.content), out.overwrite))
            && Preserves(out.origin, fs.nodes,
                         {out.partialPath} + if out.overwrite && published then {out.finalPath} else {})
            && (published ==> At(fs.nodes, out.finalPath) == Some(Regular(out.content)))
            && (fs.quiet && HasParent(out.origin, out.finalPath) &&
                CanOpen(out.origin, out.finalPath, out.overwrite) ==>
                  published &&
                    fs.nodes == With(Without(out.origin, out.partialPath), out.finalPath, Regular(out.content)))
  {
    published := out.Commit();
    ghost var before := out.fs.log;
    out.Cleanup();
    if !published {
      TouchingPartialLeavesFinal(out.fs.log, |before|, out.finalPath);
      FailedEarlier(before, |out.earlier|, 0, out.fs.log, out.finalPath, Some(out.content), out.overwrite);
    }
    TouchingPartialIsSafe(out.fs.log, |before|, out.finalPath, Some(out.content), out.overwrite);
    SafeEffectsJoin(before, |out.earlier|, |before|, out.fs.log, out.finalPath, Some(out.content), out.overwrite);
  }

  /** The destructor after a failed copy. */
  method Discard(out: AtomicFile)
    requires out.Valid() && out.fdOpen
    modifies out.fs`nodes, out.fs`log, out`fdOpen
    ensures var fs := out.fs;
            && fs.Valid() && out.earlier <= fs.log && EffectsTouch(fs.log, |out.earlier|, {out.partialPath})
            && Preserves(out.origin, fs.nodes, {out.partialPath})
            && (fs.quiet ==> fs.nodes == Without(out.origin, out.partialPath))
  {
    WithoutWith(out.origin, out.partialPath, Regular(out.content));
    out.Cleanup();
  }

  /** What recovering does to a quiet file system. */
  function QuietResult(nodes: Nodes, path: Path, chosen: bool, content: Option<seq<byte>>, overwrite: bool): Nodes
    requires path != []
  {
    if !(chosen && CanOpen(nodes, path, overwrite)) then nodes
    else if content.Some? then With(Without(nodes, PartialOf(path)), path, Regular(content.value))
    else Without(nodes, PartialOf(path))
  }

  /** What may change of what existed: a stale partial file, and on success the file itself; only when overwriting. */
  function MayReplace(path: Path, overwrite: bool, done: bool): set<Path>
    requires path != []
  {
    if !overwrite then {} else if done then {path, PartialOf(path)} else {PartialOf(path)}
  }

  /** Writes and publishes a chosen attribute; the partial file is cleaned up on every way out. */
  method PublishData(source: Source, data: DataAttribute, clusterSize: uint64, fs: FileSystem, path: Path,
                     overwrite: bool)
    returns (r: CopyResult)
    requires WholeAttribute(data) && fs.Valid() && path != []
    modifies source`interruptions, fs
    ensures fs.Valid() && old(fs.log) <= fs.log
    ensures var content := AttributeContent(source.device, data, clusterSize);
            && SafeEffects(fs.log, |old(fs.log)|, path, content, overwrite)
            && (r.Done? ==> content.Some? && At(fs.nodes, path) == Some(Regular(content.value)))
            && (!r.Done? ==> FailedPublication(fs.log, |old(fs.log)|, 1, path, content, overwrite))
    ensures Preserves(old(fs.nodes), fs.nodes, MayReplace(path, overwrite, r.Done?))
    ensures KeepsSpecial(old(fs.nodes), fs.nodes) && (r.Done? ==> CanOpen(old(fs.nodes), path, overwrite))
    ensures fs.quiet && HasParent(old(fs.nodes), path) ==>
              var content := AttributeContent(source.device, data, clusterSize);
              && (CanOpen(old(fs.nodes), path, overwrite) && content.Some? ==> r.Done?)
              && fs.nodes == QuietResult(old(fs.nodes), path, true, content, overwrite)
  {
    ghost var content := AttributeContent(source.device, data, clusterSize);
    ghost var start := |fs.log|;
    var out := AtomicFile.Open(fs, path, overwrite);
    if out == null {
      TouchingPartialIsSafe(fs.log, start, path, content, overwrite);
      TouchingPartialLeavesFinal(fs.log, start, path);
      return Thrown;
    }
    r := WriteContent(source, data, clusterSize, out);
    if r.Done? {
      var published := Finish(out);
      return if published then Done else Thrown;
    }
    Discard(out);
    TouchingPartialIsSafe(fs.log, start, path, content, overwrite);
    TouchingPartialLeavesFinal(fs.log, start, path);
  }

  /** Main result: recovery succeeds only when the complete content stands at the file's own path; every call on the
      way is safe for that path; without overwriting, nothing that existed changes. A recovery that fails leaves the
      final path alone, except when the fallback of the publication failed. */
  method RecoverFile(source: Source, record: StoredRecord, mftBytes: seq<byte>, clusterSize: uint64, fs: FileSystem,
                     path: Path, overwrite: bool) returns (r: CopyResult)
    requires fs.Valid() && path != []
    modifies source`interruptions, fs
    ensures fs.Valid() && old(fs.log) <= fs.log
    ensures var content := ContentOf(source.device, ChosenData(record, DataAttributesOf(mftBytes)), clusterSize);
            && SafeEffects(fs.log, |old(fs.log)|, path, content, overwrite)
            && (r.Done? ==> content.Some? && At(fs.nodes, path) == Some(Regular(content.value)))
            && (!r.Done? ==> FailedPublication(fs.log, |old(fs.log)|, 1, path, content, overwrite))
    ensures Preserves(old(fs.nodes), fs.nodes, MayReplace(path, overwrite, r.Done?))
    ensures KeepsSpecial(old(fs.nodes), fs.nodes) && (r.Done? ==> CanOpen(old(fs.nodes), path, overwrite))
    ensures fs.quiet && HasParent(old(fs.nodes), path) ==>
              var chosen := ChosenData(record, DataAttributesOf(mftBytes));
              var content := ContentOf(source.device, chosen, clusterSize);
              && (CanOpen(old(fs.nodes), path, overwrite) && content.Some? ==> r.Done?)
              && fs.nodes == QuietResult(old(fs.nodes), path, chosen.Some?, content, overwrite)
  {
    var chosen := ChooseData(record, mftBytes);
    if chosen.None? {
      return NotDone;
    }
    r := PublishData(source, chosen.value, clusterSize, fs, path, overwrite);
  }
}
