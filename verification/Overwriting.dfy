/** What a run means for the recovered files, and when overwriting loses one. */
module Overwriting {
  import opened Options
  import opened Sequences
  import opened LittleEndian
  import opened MachineInts
  import opened Names
  import opened Siblings
  import opened CollectTree
  import opened MftRecord
  import opened Devices
  import opened LocateRecords
  import opened FileSystems
  import opened AtomicFiles
  import opened FileRecovery
  import opened Directories
  import opened Jobs
  import opened Turns
  import opened RecoverRun
  import opened SiblingOrder

  /** The content that item `i` should get: that of the chosen attribute of the first block with its number. */
  ghost predicate IsContentOf(d: Device, clusterSize: uint64, record: StoredRecord, content: seq<byte>) {
    exists k: nat :: FirstBlock(d, record.recordIdGuess, k)
                     && ContentOf(d, ChosenData(record, DataAttributesOf(Block(d, k))), clusterSize) == Some(content)
  }

  lemma JobContentIsContent(d: Device, records: map<nat, seq<byte>>, wanted: set<nat>, clusterSize: uint64,
                            target: Path, record: StoredRecord)
    requires Located(d, wanted, records)
    requires FileJob(d, records, clusterSize, target, record).content.Some?
    ensures IsContentOf(d, clusterSize, record, FileJob(d, records, clusterSize, target, record).content.value)
  {
    var k: nat :| FirstBlock(d, record.recordIdGuess, k);
    assert records[record.recordIdGuess] == Block(d, k);
  }

  /** The record of a file can be found, and a data attribute is chosen from it. */
  ghost predicate HasChoice(d: Device, record: StoredRecord) {
    exists k: nat :: FirstBlock(d, record.recordIdGuess, k)
                     && ChosenData(record, DataAttributesOf(Block(d, k))).Some?
  }

  /** Main result: the job of every item, in every run. A directory is made at its path; for a file, an attribute is
      chosen and a content is had exactly from the first block with its number. */
  lemma JobIff(run: Ran, d: Device, items: seq<Item>, destination: Path, first: Nodes, nodes: Nodes, overwrite: bool,
               quiet: bool, i: nat)
    requires IsRun(run, d, items, destination, first, nodes, overwrite, quiet) && i < |items|
    ensures var job, record := run.setting.jobs[i], items[i].record;
            && job.target == destination + items[i].path && job.isDirectory == record.isDirectory
            && (record.isDirectory ==> !job.chosen && job.content.None?)
            && (!record.isDirectory ==>
                  && (job.chosen <==> HasChoice(d, record))
                  && forall content :: job.content == Some(content) <==>
                                       IsContentOf(d, run.clusterSize, record, content))
  {
    var record := items[i].record;
    assert run.setting.jobs[i] == JobOf(d, run.records, run.clusterSize, destination, items[i]);
    if !record.isDirectory {
      assert record.recordIdGuess in FileIds(items) by { assert items[i] in items; }
      FileJobIff(d, run.records, FileIds(items), run.clusterSize, destination + items[i].path, record);
    }
  }

  lemma FileJobIff(d: Device, records: map<nat, seq<byte>>, wanted: set<nat>, clusterSize: uint64, target: Path,
                   record: StoredRecord)
    requires Located(d, wanted, records) && record.recordIdGuess in wanted
    ensures var job := FileJob(d, records, clusterSize, target, record);
            && (job.chosen <==> HasChoice(d, record))
            && forall content :: job.content == Some(content) <==> IsContentOf(d, clusterSize, record, content)
  {
    var number := record.recordIdGuess;
    if k: nat :| FirstBlock(d, number, k) {
      assert number in records && records[number] == Block(d, k);
      forall j: nat | FirstBlock(d, number, j)
        ensures j == k
      {
        FirstBlockUnique(d, number, j, k);
      }
    } else {
      assert number !in records;
    }
  }

  /** Main result: after any run that did not throw, a file counted as recovered holds, at its own path, the full
      content of its record, unless a later item was written under its name while overwriting. */
  lemma RecoveredFilesHoldTheirContent(run: Ran, d: Device, items: seq<Item>, destination: Path, first: Nodes,
                                       nodes: Nodes, overwrite: bool, quiet: bool, i: nat)
    requires IsRun(run, d, items, destination, first, nodes, overwrite, quiet) && i in run.recovered
    requires !overwrite || Unclashed(run.setting.jobs, i)
    ensures i < |items| && !items[i].record.isDirectory
    ensures exists content :: IsContentOf(d, run.clusterSize, items[i].record, content)
                              && At(nodes, destination + items[i].path) == Some(Regular(content))
  {
    assert run.setting.jobs[i] == JobOf(d, run.records, run.clusterSize, destination, items[i]);
    JobContentIsContent(d, run.records, FileIds(items), run.clusterSize, destination + items[i].path, items[i].record);
    assert IsContentOf(d, run.clusterSize, items[i].record, run.setting.jobs[i].content.value);
  }

  /** No file of the run is written under the final name of job `i`'s. */
  ghost predicate IsNoPartial(jobs: seq<Job>, i: nat) {
    forall j :: 0 <= j < |jobs| && i < |jobs| && !jobs[j].isDirectory && jobs[j].target != [] ==>
                  PartialOf(jobs[j].target) != jobs[i].target
  }

  /** The calls for one item leave the final path of another file alone. */
  lemma OtherTurnLeaves(s: Setting, turns: seq<seq<Effect>>, recovered: set<nat>, i: nat, j: nat)
    requires s.Valid() && AreTurns(turns, s.jobs, recovered, s.overwrite) && i < |s.jobs| && j < |turns| && i != j
    requires !s.jobs[i].isDirectory && IsNoPartial(s.jobs, i)
    ensures LeavesFinal(turns[j], 0, s.jobs[i].target)
  {
    var target := s.jobs[i].target;
    assert IsTurn(turns[j], s.jobs[j], j in recovered, s.overwrite);
    assert s.jobs[if i < j then i else j].target != s.jobs[if i < j then j else i].target;
    FileIsNoHome(s, i, j);
    forall k | 0 <= k < |turns[j]|
      ensures At(turns[j][k].after, target) == At(turns[j][k].before, target)
    {
      assert CallIsFor(turns[j][k], s.jobs[j]);
    }
  }

  /** Making the destination leaves the final paths alone. */
  lemma PreparationLeaves(s: Setting, preparation: seq<Effect>, i: nat)
    requires s.Valid() && EffectsMakeDirectories(preparation, 0, s.destination) && i < |s.jobs|
    ensures LeavesFinal(preparation, 0, s.jobs[i].target)
  {
    forall k | 0 <= k < |preparation|
      ensures At(preparation[k].after, s.jobs[i].target) == At(preparation[k].before, s.jobs[i].target)
    {
      assert OnlyMakesDirectories(preparation[k], s.destination) && s.destination < s.jobs[i].target;
    }
  }

  lemma LeavesJoin(a: seq<Effect>, b: seq<Effect>, final: Path)
    requires LeavesFinal(a, 0, final) && LeavesFinal(b, 0, final)
    ensures LeavesFinal(a + b, 0, final)
  {
  }

  /** Main result: whatever fails and whatever other processes do, no call of a run changes the final path of a file
      that was counted as skipped, unless another file is written under that name; the one exception is a publication
      without overwriting whose fallback failed, in the file's own turn. */
  lemma SkippedIsLeftAlone(run: Ran, d: Device, items: seq<Item>, destination: Path, first: Nodes, nodes: Nodes,
                           overwrite: bool, quiet: bool, i: nat)
    requires IsRun(run, d, items, destination, first, nodes, overwrite, quiet) && i < |items|
    requires !items[i].record.isDirectory && i !in run.recovered && IsNoPartial(run.setting.jobs, i)
    ensures run.setting.jobs[i].target == destination + items[i].path
    ensures var job, turn := run.setting.jobs[i], run.turns[i];
            || LeavesFinal(run.Calls(), 0, job.target)
            || (!overwrite && job.content.Some? && FallbackFailed(turn, 0, |turn| - 4, job.target, job.content.value))
    ensures forall j :: 0 <= j < |items| && j != i ==> LeavesFinal(run.turns[j], 0, run.setting.jobs[i].target)
  {
    var s, turns := run.setting, run.turns;
    assert s.jobs[i] == JobOf(d, run.records, run.clusterSize, destination, items[i]);
    var target := s.jobs[i].target;
    forall j | 0 <= j < |items| && j != i
      ensures LeavesFinal(turns[j], 0, target)
    {
      OtherTurnLeaves(s, turns, run.recovered, i, j);
    }
    assert IsTurn(turns[i], s.jobs[i], i in run.recovered, overwrite);
    if LeavesFinal(turns[i], 0, target) {
      PreparationLeaves(s, run.preparation, i);
      FlattenLeaves(turns, target);
      LeavesJoin(run.preparation, Flatten(turns), target);
    }
  }

  /** Main result: on a quiet file system, whatever files there were before, the recovered files are exactly the ones
      whose job opens and has content, and a recovered file stands complete at the end if and only if no later job
      that opens is written under its name. Without overwriting that never happens; when overwriting it happens
      exactly if, for a later file that clashes, a data attribute was chosen and its own target was absent or a
      regular file before the run. */
  lemma SurvivalIsExact(run: Ran, d: Device, items: seq<Item>, destination: Path, first: Nodes, nodes: Nodes,
                        overwrite: bool, i: nat)
    requires IsRun(run, d, items, destination, first, nodes, overwrite, true) && i < |items|
    ensures var jobs := run.setting.jobs;
            && (i in run.recovered <==> Recovers(first, jobs, overwrite, i))
            && (i in run.recovered ==>
                  var stands := At(nodes, jobs[i].target) == Some(Regular(jobs[i].content.value));
                  && (stands <==> !exists k: nat :: Clashes(jobs, i, k) && Opens(first, jobs, overwrite, k))
                  && (!overwrite ==> stands)
                  && (overwrite ==> (stands <==> !exists k: nat :: Clashes(jobs, i, k) && jobs[k].chosen
                                                                   && IsFree(first, jobs[k].target, true))))
  {
    var s := run.setting;
    assert i in s.openers <==> Opens(first, s.jobs, overwrite, i);
    if i in run.recovered {
      FinalContents(s, nodes, i);
      forall k: nat | Clashes(s.jobs, i, k)
        ensures k in s.openers <==> Opens(first, s.jobs, overwrite, k)
        ensures !overwrite ==> k !in s.openers
        ensures overwrite ==> (k in s.openers <==> s.jobs[k].chosen && IsFree(first, s.jobs[k].target, true))
      {
        ClashOpensIff(s, i, k);
      }
    }
  }

  //
  // When names clash
  //

  lemma {:induction false} LongerNameIsGreater(name: Name, suffix: seq<byte>)
    requires suffix != []
    ensures NameLess(name, name + suffix)
  {
    if name != [] {
      LongerNameIsGreater(name[1..], suffix);
      assert (name + suffix)[1..] == name[1..] + suffix;
    } else {
      assert name + suffix == suffix;
    }
  }

  /** A clash is between siblings, and the sanitised names differ by the suffix. */
  lemma ClashIsBetweenSiblings(destination: Path, a: Path, b: Path)
    requires a != [] && b != [] && PartialOf(destination + b) == destination + a
    ensures Parent(a) == Parent(b) && a[|a| - 1] == b[|b| - 1] + PARTIAL_SUFFIX
  {
    var t := destination + b;
    var n := |t| - 1;
    assert t[..n] == destination + Parent(b) && (destination + a)[..n] == destination + Parent(a);
    SamePathBelow(destination, Parent(a), Parent(b));
    assert (destination + a)[n] == a[|a| - 1] && t[n] == b[|b| - 1];
  }

  lemma CleanSiblingsDontClash(items: seq<Item>, destination: Path, i: nat, j: nat)
    requires InOrder(items) && i < j < |items| && !items[i].record.isDirectory && !items[j].record.isDirectory
    requires PartialOf(destination + items[j].path) == destination + items[i].path
    ensures Sanitized(items[i].record.name) != items[i].record.name ||
      Sanitized(items[j].record.name) != items[j].record.name
  {
    var p, q := items[i].record, items[j].record;
    assert IsNamed(items[i]) && IsNamed(items[j]);
    ClashIsBetweenSiblings(destination, items[i].path, items[j].path);
    assert LiesIn(items[j], Parent(items[i].path));
    if Sanitized(p.name) == p.name && Sanitized(q.name) == q.name {
      LongerNameIsGreater(q.name, PARTIAL_SUFFIX);
    }
  }

  /** Main result: only sanitising makes files clash. When no indexed file's name had to be changed, overwriting
      loses nothing: every recovered file holds its content at the end of every run. */
  lemma CleanNamesAreSafe(run: Ran, d: Device, rows: set<StoredRecord>, root: nat, destination: Path, first: Nodes,
                          nodes: Nodes, overwrite: bool, quiet: bool, i: nat)
    requires CollectedTree(rows, root).Some?
    requires IsRun(run, d, CollectedTree(rows, root).value.items, destination, first, nodes, overwrite, quiet)
    requires forall item :: item in CollectedTree(rows, root).value.items && !item.record.isDirectory ==>
                              Sanitized(item.record.name) == item.record.name
    requires i in run.recovered
    ensures exists content :: IsContentOf(d, run.clusterSize, CollectedTree(rows, root).value.items[i].record, content)
                              && At(nodes, destination + CollectedTree(rows, root).value.items[i].path) ==
                                Some(Regular(content))
  {
    var items := CollectedTree(rows, root).value.items;
    SiblingsInOrder(rows, root);
    JobsFollow(run.setting.jobs, d, run.records, run.clusterSize, destination, items);
    forall j
      ensures !Clashes(run.setting.jobs, i, j)
    {
      if Clashes(run.setting.jobs, i, j) {
        CleanSiblingsDontClash(items, destination, i, j);
      }
    }
    RecoveredFilesHoldTheirContent(run, d, items, destination, first, nodes, overwrite, quiet, i);
  }
}
