/** A recovery run: collecting the tree, locating the records, and the loop over the items. */
module RecoverRun {
  import opened Options
  import opened Sequences
  import opened LittleEndian
  import opened MachineInts
  import opened Names
  import opened Siblings
  import opened CollectTree
  import opened TreeProperties
  import opened SiblingOrder
  import opened MftRecord
  import opened Devices
  import opened LocateRecords
  import opened FileSystems
  import opened Directories
  import opened AtomicFiles
  import opened FileRecovery
  import opened Jobs
  import opened Turns

  //
  // One item
  //

  /** The job of a file; nothing is chosen when its record was not located. */
  function FileJob(d: Device, records: map<nat, seq<byte>>, clusterSize: uint64, target: Path,
                   record: StoredRecord): Job {
    if record.recordIdGuess !in records then Job(target, false, false, None)
    else
      var chosen := ChosenData(record, DataAttributesOf(records[record.recordIdGuess]));
      Job(target, false, chosen.Some?, ContentOf(d, chosen, clusterSize))
  }

  function JobOf(d: Device, records: map<nat, seq<byte>>, clusterSize: uint64, destination: Path, item: Item): Job {
    if item.record.isDirectory then Job(destination + item.path, true, false, None)
    else FileJob(d, records, clusterSize, destination + item.path, item.record)
  }

  /** The jobs of the items, in order. */
  ghost predicate AreJobs(jobs: seq<Job>, d: Device, records: map<nat, seq<byte>>, clusterSize: uint64,
                          destination: Path, items: seq<Item>) {
    && |jobs| == |items|
    && forall i {:trigger JobOf(d, records, clusterSize, destination, items[i])} :: 0 <= i < |items| ==>
         jobs[i] == JobOf(d, records, clusterSize, destination, items[i])
  }

  datatype ItemOutcome = DirectoryMade | Recovered | Skipped

  /** What one item may change of what existed. */
  function Replaceable(job: Job, overwrite: bool, outcome: ItemOutcome): set<Path>
    requires job.target != []
  {
    if job.isDirectory then {} else MayReplace(job.target, overwrite, outcome.Recovered?)
  }

  /** On a quiet file system a job succeeds exactly when nothing is in its way. */
  ghost predicate QuietOutcome(before: Nodes, job: Job, overwrite: bool, outcome: ItemOutcome)
    requires job.target != []
  {
    && (outcome.DirectoryMade? <==> job.isDirectory && PathFree(before, Home(job)))
    && (outcome.Recovered? <==> !job.isDirectory && job.content.Some? && PathFree(before, Home(job))
                                && CanOpen(MadePath(before, Home(job)), job.target, overwrite))
  }

  /** What `RunItem` guarantees of the files. */
  ghost predicate ItemDone(before: Nodes, after: Nodes, job: Job, outcome: ItemOutcome, overwrite: bool, quiet: bool) {
    && job.target != []
    && Preserves(before, after, Replaceable(job, overwrite, outcome)) && KeepsSpecial(before, after)
    && (outcome.DirectoryMade? ==> job.isDirectory && At(after, job.target) == Some(Directory))
    && (outcome.Recovered? ==> !job.isDirectory && job.content.Some?
                               && At(after, job.target) == Some(Regular(job.content.value)))
    && (quiet ==> after == QuietJob(before, job, overwrite) && QuietOutcome(before, job, overwrite, outcome))
  }

  /** The body of the loop over items. Exceptions are counted as skipped. */
  method RunItem(source: Source, fs: FileSystem, records: map<nat, seq<byte>>, clusterSize: uint64, destination: Path,
                 items: seq<Item>, k: nat, overwrite: bool, ghost jobs: seq<Job>) returns (outcome: ItemOutcome)
    requires fs.Valid() && k < |items| && items[k].path != []
    requires AreJobs(jobs, source.device, records, clusterSize, destination, items)
    modifies source`interruptions, fs
    ensures fs.Valid() && old(fs.log) <= fs.log
    ensures ItemDone(old(fs.nodes), fs.nodes, jobs[k], outcome, overwrite, fs.quiet)
    ensures IsTurn(fs.log[|old(fs.log)|..], jobs[k], outcome.Recovered?, overwrite)
  {
    var item := items[k];
    assert jobs[k] == JobOf(source.device, records, clusterSize, destination, item);
    var target := destination + item.path;
    if item.record.isDirectory {
      var made := EnsureSafeDirectory(fs, target);
      assert target[..|target|] == target;
      DirectoryTurn(fs.log, |old(fs.log)|, jobs[k], overwrite);
      return if made then DirectoryMade else Skipped;
    }
    outcome := RunFileItem(source, fs, records, clusterSize, target, item.record, overwrite, jobs[k]);
  }

  /** A file's item: its directory, then the file. */
  method RunFileItem(source: Source, fs: FileSystem, records: map<nat, seq<byte>>, clusterSize: uint64, target: Path,
                     record: StoredRecord, overwrite: bool, ghost job: Job) returns (outcome: ItemOutcome)
    requires fs.Valid() && target != [] && job == FileJob(source.device, records, clusterSize, target, record)
    modifies source`interruptions, fs
    ensures fs.Valid() && old(fs.log) <= fs.log
    ensures ItemDone(old(fs.nodes), fs.nodes, job, outcome, overwrite, fs.quiet)
    ensures IsTurn(fs.log[|old(fs.log)|..], job, outcome.Recovered?, overwrite)
  {
    var parent := target[..|target| - 1];
    assert parent[..|parent|] == parent == Home(job);
    var ensured := EnsureSafeDirectory(fs, parent);
    ghost var start, made := |old(fs.log)|, fs.log;
    DirectoryTurn(made, start, job, overwrite);
    if !ensured {
      return Skipped;
    }
    var rejected := fs.Fails();
    if rejected {
      return Skipped;
    }
    outcome := RunFile(source, fs, records, clusterSize, target, record, overwrite, job);
    FileTurn(made, start, |made|, fs.log, job, outcome.Recovered?, overwrite);
  }

  /** Looks the record up and recovers the file. */
  method RunFile(source: Source, fs: FileSystem, records: map<nat, seq<byte>>, clusterSize: uint64, target: Path,
                 record: StoredRecord, overwrite: bool, ghost job: Job) returns (outcome: ItemOutcome)
    requires fs.Valid() && target != [] && job == FileJob(source.device, records, clusterSize, target, record)
    modifies source`interruptions, fs
    ensures fs.Valid() && old(fs.log) <= fs.log && !outcome.DirectoryMade?
    ensures SafeEffects(fs.log, |old(fs.log)|, target, job.content, overwrite)
    ensures !outcome.Recovered? ==> FailedPublication(fs.log, |old(fs.log)|, 1, target, job.content, overwrite)
    ensures Preserves(old(fs.nodes), fs.nodes, Replaceable(job, overwrite, outcome))
    ensures KeepsSpecial(old(fs.nodes), fs.nodes)
    ensures outcome.Recovered? ==> job.content.Some? && At(fs.nodes, target) == Some(Regular(job.content.value))
    ensures fs.quiet && HasParent(old(fs.nodes), target) ==>
              && fs.nodes == QuietResult(old(fs.nodes), target, job.chosen, job.content, overwrite)
              && (outcome.Recovered? <==> job.content.Some? && CanOpen(old(fs.nodes), target, overwrite))
  {
    if record.recordIdGuess !in records {
      return Skipped;
    }
    var r := RecoverFile(source, record, records[record.recordIdGuess], clusterSize, fs, target, overwrite);
    return if r.Done? then Recovered else Skipped;
  }

  //
  // The loop
  //

  datatype RecoverStats = RecoverStats(previewItems: nat, recovered: nat, skipped: nat)

  /** No later file is written under the final name of job `i`'s. */
  ghost predicate Unclashed(jobs: seq<Job>, i: nat) {
    forall j :: !Clashes(jobs, i, j)
  }

  /** The recovered files stand complete at their own paths; when overwriting, those no later job clashes with. */
  ghost predicate Hold(jobs: seq<Job>, recovered: set<nat>, nodes: Nodes, overwrite: bool) {
    forall i :: i in recovered ==>
                  && i < |jobs| && !jobs[i].isDirectory && jobs[i].content.Some?
                  && (!overwrite || Unclashed(jobs, i) ==>
                        At(nodes, jobs[i].target) == Some(Regular(jobs[i].content.value)))
  }

  /** A path that an overwriting run may replace: the partial path of a file, or the path of a recovered one. */
  ghost predicate IsOutput(jobs: seq<Job>, recovered: set<nat>, i: nat, p: Path) {
    && i < |jobs| && !jobs[i].isDirectory && jobs[i].target != []
    && (p == PartialOf(jobs[i].target) || (i in recovered && p == jobs[i].target))
  }

  /** Nothing else that existed has changed, and of these paths only regular files. */
  ghost predicate OnlyOutputs(s: Setting, recovered: set<nat>, nodes: Nodes) {
    forall p :: At(s.first, p).Some? && At(nodes, p) != At(s.first, p) ==>
                  s.overwrite && At(s.first, p).value.Regular? && exists i: nat :: IsOutput(s.jobs, recovered, i, p)
  }

  function WithOutcome(recovered: set<nat>, n: nat, outcome: ItemOutcome): set<nat> {
    if outcome.Recovered? then recovered + {n} else recovered
  }

  /** What has been recovered survives the next item. */
  lemma NextItemKeeps(s: Setting, n: nat, recovered: set<nat>, before: Nodes, after: Nodes, outcome: ItemOutcome)
    requires s.Valid() && n < |s.jobs| && s.jobs[n].target != []
    requires Preserves(before, after, Replaceable(s.jobs[n], s.overwrite, outcome))
    requires (forall i :: i in recovered ==> i < n) && Hold(s.jobs, recovered, before, s.overwrite)
    ensures Hold(s.jobs, recovered, after, s.overwrite)
  {
    forall i | i in recovered && (!s.overwrite || Unclashed(s.jobs, i))
      ensures At(after, s.jobs[i].target) == Some(Regular(s.jobs[i].content.value))
    {
      assert !s.overwrite || !Clashes(s.jobs, i, n);
      assert s.jobs[i].target !in Replaceable(s.jobs[n], s.overwrite, outcome);
    }
  }

  lemma NextItemOutputs(s: Setting, n: nat, recovered: set<nat>, before: Nodes, after: Nodes, outcome: ItemOutcome)
    requires s.Valid() && n < |s.jobs| && s.jobs[n].target != []
    requires Preserves(before, after, Replaceable(s.jobs[n], s.overwrite, outcome))
    requires KeepsSpecial(before, after) && OnlyOutputs(s, recovered, before)
    ensures OnlyOutputs(s, WithOutcome(recovered, n, outcome), after)
  {
    var next := WithOutcome(recovered, n, outcome);
    forall p | At(s.first, p).Some? && At(after, p) != At(s.first, p)
      ensures s.overwrite && At(s.first, p).value.Regular? && exists i: nat :: IsOutput(s.jobs, next, i, p)
    {
      if At(before, p) == At(s.first, p) {
        assert p in Replaceable(s.jobs[n], s.overwrite, outcome);
        assert IsOutput(s.jobs, next, n, p);
      } else {
        var i: nat :| IsOutput(s.jobs, recovered, i, p);
        assert IsOutput(s.jobs, next, i, p);
      }
    }
  }

  /** A quiet run has done `n` jobs: the files are exactly what the files before it and the jobs determine, and so are
      the recovered jobs. */
  ghost predicate QuietUpTo(s: Setting, n: nat, recovered: set<nat>, nodes: Nodes) {
    IsState(s, n, n, nodes) && forall i: nat :: i in recovered <==> i < n && s.Recovered(i)
  }

  lemma RecoveredNext(s: Setting, n: nat, recovered: set<nat>, outcome: ItemOutcome)
    requires forall i: nat :: i in recovered <==> i < n && s.Recovered(i)
    requires outcome.Recovered? <==> s.Recovered(n)
    ensures forall i: nat :: i in WithOutcome(recovered, n, outcome) <==> i < n + 1 && s.Recovered(i)
  {
  }

  lemma QuietStep(s: Setting, n: nat, recovered: set<nat>, before: Nodes, after: Nodes, outcome: ItemOutcome)
    requires IsExact(s) && n < |s.jobs| && s.jobs[n].target != [] && QuietUpTo(s, n, recovered, before)
    requires after == QuietJob(before, s.jobs[n], s.overwrite) && QuietOutcome(before, s.jobs[n], s.overwrite, outcome)
    ensures QuietUpTo(s, n + 1, WithOutcome(recovered, n, outcome), after)
  {
    JobResult(s, n, before);
    RecoveredNext(s, n, recovered, outcome);
  }

  /** What holds of the files after the first `n` jobs of a run. */
  ghost predicate RunUpTo(s: Setting, n: nat, recovered: set<nat>, nodes: Nodes, quiet: bool) {
    && (forall i :: i in recovered ==> i < n)
    && OnlyOutputs(s, recovered, nodes)
    && Hold(s.jobs, recovered, nodes, s.overwrite)
    && (quiet ==> QuietUpTo(s, n, recovered, nodes))
  }

  /** The loop starts when the destination was made. */
  lemma RunStarts(s: Setting, nodes: Nodes, quiet: bool)
    requires Preserves(s.first, nodes, {}) && (quiet ==> nodes == MadePath(s.first, s.destination))
    ensures RunUpTo(s, 0, {}, nodes, quiet)
  {
    if quiet {
      StateAtStart(s);
    }
  }

  lemma RunStep(s: Setting, n: nat, recovered: set<nat>, before: Nodes, after: Nodes, quiet: bool, outcome: ItemOutcome)
    requires IsExact(s) && n < |s.jobs| && RunUpTo(s, n, recovered, before, quiet)
    requires ItemDone(before, after, s.jobs[n], outcome, s.overwrite, quiet)
    ensures RunUpTo(s, n + 1, WithOutcome(recovered, n, outcome), after, quiet)
  {
    NextItemOutputs(s, n, recovered, before, after, outcome);
    NextItemKeeps(s, n, recovered, before, after, outcome);
    if quiet {
      QuietStep(s, n, recovered, before, after, outcome);
    }
  }

  /** Every item so far was counted once, and the recovered ones were counted as such. */
  ghost predicate Tallied(stats: RecoverStats, recovered: set<nat>, directoriesMade: nat, n: nat, total: nat) {
    && stats.previewItems == total && stats.recovered + stats.skipped + directoriesMade == n
    && stats.recovered == |recovered| && forall i :: i in recovered ==> i < n
  }

  function Tally(stats: RecoverStats, outcome: ItemOutcome): RecoverStats {
    RecoverStats(stats.previewItems, stats.recovered + (if outcome.Recovered? then 1 else 0),
                 stats.skipped + if outcome.Skipped? then 1 else 0)
  }

  lemma TallyStep(stats: RecoverStats, recovered: set<nat>, directoriesMade: nat, n: nat, total: nat,
                  outcome: ItemOutcome)
    requires Tallied(stats, recovered, directoriesMade, n, total)
    ensures Tallied(Tally(stats, outcome), WithOutcome(recovered, n, outcome),
                    directoriesMade + (if outcome.DirectoryMade? then 1 else 0), n + 1, total)
  {
  }

  method CountOutcome(stats: RecoverStats, outcome: ItemOutcome) returns (counted: RecoverStats)
    ensures counted == Tally(stats, outcome)
  {
    counted := stats;
    match outcome {
      case DirectoryMade =>
      case Recovered => counted := counted.(recovered := counted.recovered + 1);
      case Skipped => counted := counted.(skipped := counted.skipped + 1);
    }
  }

  /** Main result: the loop over the items. Every item is counted once. Without overwriting, nothing that existed is
      changed, and every recovered file still holds its content at the end; with overwriting the same holds of every
      recovered file under whose final name no later file is written. On a quiet file system the recovered files and
      the final state are exactly what the files before the run and the jobs determine. */
  method RunItems(source: Source, fs: FileSystem, records: map<nat, seq<byte>>, clusterSize: uint64, destination: Path,
                  items: seq<Item>, overwrite: bool, ghost s: Setting)
    returns (stats: RecoverStats, ghost recovered: set<nat>, ghost directoriesMade: nat,
             ghost turns: seq<seq<Effect>>)
    requires fs.Valid() && AreJobs(s.jobs, source.device, records, clusterSize, destination, items)
    requires IsExact(s) && s.overwrite == overwrite && forall item :: item in items ==> item.path != []
    requires RunUpTo(s, 0, {}, fs.nodes, fs.quiet)
    modifies source`interruptions, fs
    ensures fs.Valid() && fs.log == old(fs.log) + Flatten(turns) && |turns| == |items|
    ensures Tallied(stats, recovered, directoriesMade, |items|, |items|)
    ensures RunUpTo(s, |s.jobs|, recovered, fs.nodes, fs.quiet) && AreTurns(turns, s.jobs, recovered, overwrite)
  {
    stats, recovered, directoriesMade, turns := RecoverStats(|items|, 0, 0), {}, 0, [];
    for k := 0 to |items|
      invariant fs.Valid() && fs.log == old(fs.log) + Flatten(turns) && |turns| == k
      invariant Tallied(stats, recovered, directoriesMade, k, |items|)
      invariant var upTo := RunUpTo(s, k, recovered, fs.nodes, fs.quiet); upTo
      invariant AreTurns(turns, s.jobs, recovered, overwrite)
    {
      stats, recovered, directoriesMade, turns :=
        RunNext(source, fs, records, clusterSize, destination, items, k, overwrite, s, stats, recovered,
                directoriesMade, turns);
      Regroup(old(fs.log), Flatten(turns[..k]), turns[k]);
    }
  }

  /** The body of the loop, with its count. */
  method RunNext(source: Source, fs: FileSystem, records: map<nat, seq<byte>>, clusterSize: uint64, destination: Path,
                 items: seq<Item>, k: nat, overwrite: bool, ghost s: Setting, counted: RecoverStats,
                 ghost before: set<nat>, ghost made: nat, ghost past: seq<seq<Effect>>)
    returns (stats: RecoverStats, ghost recovered: set<nat>, ghost directoriesMade: nat,
             ghost turns: seq<seq<Effect>>)
    requires fs.Valid() && AreJobs(s.jobs, source.device, records, clusterSize, destination, items)
    requires IsExact(s) && s.overwrite == overwrite && k < |items| && items[k].path != []
    requires Tallied(counted, before, made, k, |items|) && RunUpTo(s, k, before, fs.nodes, fs.quiet)
    requires |past| == k && AreTurns(past, s.jobs, before, overwrite)
    modifies source`interruptions, fs
    ensures fs.Valid() && |turns| == k + 1 && turns[..k] == past
    ensures fs.log == old(fs.log) + turns[k] && Flatten(turns) == Flatten(past) + turns[k]
    ensures Tallied(stats, recovered, directoriesMade, k + 1, |items|)
    ensures RunUpTo(s, k + 1, recovered, fs.nodes, fs.quiet) && AreTurns(turns, s.jobs, recovered, overwrite)
  {
    ghost var nodes, log := fs.nodes, fs.log;
    var outcome := RunItem(source, fs, records, clusterSize, destination, items, k, overwrite, s.jobs);
    ghost var turn := fs.log[|log|..];
    assert fs.log == log + turn;
    RunStep(s, k, before, nodes, fs.nodes, fs.quiet, outcome);
    TallyStep(counted, before, made, k, |items|, outcome);
    stats := CountOutcome(counted, outcome);
    recovered := WithOutcome(before, k, outcome);
    directoriesMade := made + if outcome.DirectoryMade? then 1 else 0;
    turns := past + [turn];
    NextTurn(past, turn, s.jobs, before, recovered, overwrite);
    FlattenMore(past, turn);
  }

  //
  // The whole run
  //

  /** The jobs go where the items say. */
  ghost predicate Follow(jobs: seq<Job>, destination: Path, items: seq<Item>) {
    |jobs| == |items| &&
    forall i :: 0 <= i < |items| ==>
      jobs[i].Sound() && jobs[i].target == destination + items[i].path &&
        jobs[i].isDirectory == items[i].record.isDirectory
  }

  lemma JobsFollow(jobs: seq<Job>, d: Device, records: map<nat, seq<byte>>, clusterSize: uint64, destination: Path,
                   items: seq<Item>)
    requires AreJobs(jobs, d, records, clusterSize, destination, items)
    requires forall i :: 0 <= i < |items| ==> items[i].path != []
    ensures Follow(jobs, destination, items)
  {
    forall i | 0 <= i < |items|
      ensures jobs[i].Sound() && jobs[i].target == destination + items[i].path
              && jobs[i].isDirectory == items[i].record.isDirectory
    {
      assert jobs[i] == JobOf(d, records, clusterSize, destination, items[i]);
    }
  }

  lemma SamePathBelow(destination: Path, a: Path, b: Path)
    requires destination + a == destination + b
    ensures a == b
  {
    assert a == (destination + a)[|destination|..] && b == (destination + b)[|destination|..];
  }

  lemma PrefixBelow(destination: Path, path: Path, n: nat)
    requires |destination| <= n <= |destination + path|
    ensures (destination + path)[..n] == destination + path[..n - |destination|]
  {
  }

  lemma PartialBelow(destination: Path, path: Path)
    requires path != []
    ensures PartialOf(destination + path) == destination + PartialOf(path)
  {
    var t := destination + path;
    assert t[..|t| - 1] == destination + path[..|path| - 1];
  }

  /** The directory of an item, relative to the destination. */
  function ItemHome(item: Item): Path {
    if item.record.isDirectory || item.path == [] then item.path else item.path[..|item.path| - 1]
  }

  /** A directory after a file in its own directory does not have the file's partial name, or any other: directories
      come first. */
  lemma NoDirectoryAfterFile(items: seq<Item>, m: nat, j: nat)
    requires InOrder(items) && m < j < |items| && !items[m].record.isDirectory && items[j].record.isDirectory
    requires items[m].path != []
    ensures items[j].path != PartialOf(items[m].path)
  {
  }

  /** A file between a directory and an item inside it lies inside it, too, and so not beside it. */
  lemma NoFileInBetween(items: seq<Item>, j: nat, m: nat, i: nat)
    requires SubtreesTogether(items) && j < m < i < |items| && items[j].path < items[i].path && items[m].path != []
    ensures items[j].path != PartialOf(items[m].path)
  {
    assert StaysInside(items, j, m, i);
  }

  /** A directory that an item needs is one of the items. */
  lemma HomeIsAnItem(items: seq<Item>, i: nat, p: Path) returns (j: nat)
    requires Linked(items) && i < |items| && p != [] && p <= ItemHome(items[i])
    ensures j <= i && items[j].record.isDirectory && items[j].path == p
    ensures j < i ==> items[j].path < items[i].path
  {
    var path, n := items[i].path, |p|;
    assert path[..n] == p;
    if n < |path| {
      j := PrefixIsDirectory(items, i, n);
    } else {
      j := i;
    }
  }

  /** The partial name of a file is no directory that a later item needs. */
  lemma PartialIsNoLaterHome(items: seq<Item>, m: nat, i: nat)
    requires Linked(items) && InOrder(items) && SubtreesTogether(items) && m < i < |items|
    requires !items[m].record.isDirectory && items[m].path != []
    ensures !(PartialOf(items[m].path) <= ItemHome(items[i]))
  {
    if PartialOf(items[m].path) <= ItemHome(items[i]) {
      var j := HomeIsAnItem(items, i, PartialOf(items[m].path));
      if m < j {
        NoDirectoryAfterFile(items, m, j);
      } else if j < m {
        NoFileInBetween(items, j, m, i);
      }
    }
  }

  /** A collection that did not throw is a plan, whatever the records hold. */
  lemma ItemsArePlan(jobs: seq<Job>, destination: Path, items: seq<Item>)
    requires Follow(jobs, destination, items) && Linked(items) && DistinctPaths(items)
    requires InOrder(items) && SubtreesTogether(items)
    ensures IsPlan(jobs, destination)
  {
    forall i, j | 0 <= i < j < |jobs|
      ensures jobs[i].target != jobs[j].target
    {
      if jobs[i].target == jobs[j].target {
        SamePathBelow(destination, items[i].path, items[j].path);
      }
    }
    forall i, n | 0 <= i < |jobs| && |destination| < n < |jobs[i].target|
      ensures MadeBefore(jobs, i, jobs[i].target[..n])
    {
      var j := PrefixIsDirectory(items, i, n - |destination|);
      PrefixBelow(destination, items[i].path, n);
      assert IsDirectoryJob(jobs, i, j, jobs[i].target[..n]);
    }
    forall i | 0 <= i < |jobs|
      ensures destination < jobs[i].target
    {
      assert LinkedAt(items, i);
      PrefixBelow(destination, items[i].path, |destination|);
    }
    PartialsStandAside(jobs, destination, items);
  }

  lemma PartialsStandAside(jobs: seq<Job>, destination: Path, items: seq<Item>)
    requires Follow(jobs, destination, items) && Linked(items) && InOrder(items) && SubtreesTogether(items)
    ensures PartialsAside(jobs)
  {
    forall m, i | 0 <= m < i < |jobs| && !jobs[m].isDirectory && jobs[m].target != []
      ensures !(PartialOf(jobs[m].target) <= Home(jobs[i]))
    {
      assert LinkedAt(items, m) && LinkedAt(items, i);
      PartialIsNoLaterHome(items, m, i);
      PartialAsideBelow(destination, items[m].path, jobs[i], items[i]);
    }
  }

  lemma PartialAsideBelow(destination: Path, path: Path, job: Job, item: Item)
    requires path != [] && item.path != [] && !(PartialOf(path) <= ItemHome(item))
    requires job.target == destination + item.path && job.isDirectory == item.record.isDirectory
    ensures !(PartialOf(destination + path) <= Home(job))
  {
    PartialBelow(destination, path);
    HomeBelow(destination, job, item);
    if destination + PartialOf(path) <= destination + ItemHome(item) {
      PrefixInside(destination, PartialOf(path), ItemHome(item));
    }
  }

  lemma HomeBelow(destination: Path, job: Job, item: Item)
    requires item.path != [] && job.target == destination + item.path && job.isDirectory == item.record.isDirectory
    ensures Home(job) == destination + ItemHome(item)
  {
    var t := destination + item.path;
    assert t[..|t| - 1] == destination + item.path[..|item.path| - 1];
  }

  lemma PrefixInside(destination: Path, a: Path, b: Path)
    requires destination + a <= destination + b
    ensures a <= b
  {
    assert a == (destination + a)[|destination|..];
    assert b[..|a|] == (destination + b)[..|destination| + |a|][|destination|..];
  }

  /** Numbers of the records that files need. */
  ghost function FileIds(items: seq<Item>): set<nat> {
    set item | item in items && !item.record.isDirectory :: item.record.recordIdGuess
  }

  method WantedFiles(items: seq<Item>) returns (wanted: set<nat>)
    ensures wanted == FileIds(items)
  {
    wanted := {};
    for k := 0 to |items|
      invariant wanted == FileIds(items[..k])
    {
      assert items[..k + 1] == items[..k] + [items[k]];
      if !items[k].record.isDirectory {
        wanted := wanted + {items[k].record.recordIdGuess};
      }
    }
    assert items[..|items|] == items;
  }

  /** The cluster size in the boot sector, if it can be read and is not zero. */
  function ClusterSizeOf(d: Device): (size: Option<uint64>)
    ensures size.Some? ==> 0 < size.value
  {
    if !Readable(d, 0, 512) then None
    else
      var boot := Range(d, 0, 512);
      var bytesPerSector, sectorsPerCluster: nat := Word16(boot, 0x0B), boot[0x0D];
      if bytesPerSector == 0 || sectorsPerCluster == 0 then None
      else
        ProductFits(bytesPerSector, sectorsPerCluster);
        Some(bytesPerSector * sectorsPerCluster)
  }

  /** The boot sector can be read, and both of its geometry fields are positive. */
  predicate HasGeometry(d: Device) {
    && 512 <= |d.bytes| && (forall i :: 0 <= i < 512 ==> i !in d.bad)
    && (d.bytes[0x0B] != 0 || d.bytes[0x0C] != 0) && d.bytes[0x0D] != 0
  }

  /** Bytes per sector times sectors per cluster. */
  function Geometry(d: Device): nat
    requires HasGeometry(d)
  {
    var low: nat, high: nat, sectors: nat := d.bytes[0x0B], d.bytes[0x0C], d.bytes[0x0D];
    (low + 256 * high) * sectors
  }

  /** Main result: there is a cluster size exactly when the boot sector has a geometry, and it is the product. */
  lemma ClusterSizeIff(d: Device)
    ensures ClusterSizeOf(d).Some? <==> HasGeometry(d)
    ensures ClusterSizeOf(d).Some? ==> ClusterSizeOf(d).value == Geometry(d)
  {
    if Readable(d, 0, 512) {
      var boot := Range(d, 0, 512);
      assert boot[0x0B] == d.bytes[0x0B] && boot[0x0C] == d.bytes[0x0C] && boot[0x0D] == d.bytes[0x0D];
    }
  }

  lemma ProductFits(a: nat, b: nat)
    requires 0 < a < 0x1_0000 && 0 < b < 0x100
    ensures 0 < a * b <= UINT64_MAX
  {
    assert a * b <= 0x1_0000 * b;
  }

  /** Reads the cluster size with a single call; None stands for an exception. */
  method ReadClusterSize(source: Source) returns (size: Option<uint64>)
    modifies source`interruptions
    ensures size.Some? || source.steady ==> size == ClusterSizeOf(source.device)
    ensures size.Some? ==> HasGeometry(source.device) && size.value == Geometry(source.device)
    ensures source.steady ==> (size.Some? <==> HasGeometry(source.device))
  {
    ClusterSizeIff(source.device);
    var boot := new byte[512](_ => 0);
    var n := source.Pread(boot, 0, 512, 0);
    if n != Count(512) {
      return None;
    }
    assert boot[..] == boot[0..512] == Range(source.device, 0, 512);
    var bytesPerSector := ReadU16(boot[..], 0x0B);
    var sectorsPerCluster: nat := boot[0x0D];
    if bytesPerSector.value == 0 || sectorsPerCluster == 0 {
      return None;
    }
    ProductFits(bytesPerSector.value, sectorsPerCluster);
    size := CheckedMul(bytesPerSector.value, sectorsPerCluster);
  }

  /** What a collection guarantees of its items. */
  ghost predicate WellCollected(items: seq<Item>) {
    Linked(items) && DistinctPaths(items) && InOrder(items) && SubtreesTogether(items)
  }

  lemma TreeIsWellCollected(rows: set<StoredRecord>, root: nat)
    requires CollectedTree(rows, root).Some?
    ensures WellCollected(CollectedTree(rows, root).value.items)
  {
    TreeWellFormed(rows, root);
    PathsAreDistinctAndNested(rows, root);
    SiblingsInOrder(rows, root);
  }

  /** The jobs of a collected tree, whatever the records hold. */
  lemma PlanJobs(d: Device, records: map<nat, seq<byte>>, clusterSize: uint64, destination: Path, items: seq<Item>)
    returns (jobs: seq<Job>)
    requires WellCollected(items)
    ensures AreJobs(jobs, d, records, clusterSize, destination, items) && IsPlan(jobs, destination)
  {
    jobs := seq(|items|, i requires 0 <= i < |items| => JobOf(d, records, clusterSize, destination, items[i]));
    JobsFollow(jobs, d, records, clusterSize, destination, items);
    ItemsArePlan(jobs, destination, items);
  }

  /** A run, with what its loop decided. */
  datatype Ran = Ran(stats: RecoverStats, setting: Setting, recovered: set<nat>, directoriesMade: nat,
                     records: map<nat, seq<byte>>, clusterSize: uint64,
                     preparation: seq<Effect>, turns: seq<seq<Effect>>) {
    /** What the calls of the run did: making the destination, then the turn of each item. */
    function Calls(): seq<Effect> { preparation + Flatten(turns) }
  }

  /** What a run leaves behind: every item counted once, and the guarantees of the loop, for the located records. */
  ghost predicate IsRun(run: Ran, d: Device, items: seq<Item>, destination: Path, first: Nodes, nodes: Nodes,
                        overwrite: bool, quiet: bool) {
    && Located(d, FileIds(items), run.records)
    && AreJobs(run.setting.jobs, d, run.records, run.clusterSize, destination, items)
    && IsExact(run.setting) && run.setting.destination == destination
    && run.setting.first == first && run.setting.overwrite == overwrite
    && Tallied(run.stats, run.recovered, run.directoriesMade, |items|, |items|)
    && RunUpTo(run.setting, |items|, run.recovered, nodes, quiet)
    && EffectsMakeDirectories(run.preparation, 0, destination)
    && |run.turns| == |items| && AreTurns(run.turns, run.setting.jobs, run.recovered, overwrite)
  }

  /** The part of a run after the tree was collected; None stands for an exception. */
  method RunCollected(source: Source, fs: FileSystem, items: seq<Item>, clusterSize: uint64, destination: Path,
                      overwrite: bool) returns (stats: Option<RecoverStats>, ghost run: Option<Ran>)
    requires fs.Valid() && WellCollected(items)
    modifies source`interruptions, fs
    ensures fs.Valid() && old(fs.log) <= fs.log
    ensures stats.None? ==> Preserves(old(fs.nodes), fs.nodes, {})
    ensures fs.quiet ==> stats.Some? == PathFree(old(fs.nodes), destination)
    ensures stats.Some? ==>
              && run.Some? && stats.value == run.value.stats && run.value.clusterSize == clusterSize
              && fs.log == old(fs.log) + run.value.Calls()
              && IsRun(run.value, source.device, items, destination, old(fs.nodes), fs.nodes, overwrite, fs.quiet)
  {
    var ensured := EnsureSafeDirectory(fs, destination);
    if !ensured {
      return None, None;
    }
    var wanted := WantedFiles(items);
    var records := LocateRecords.LocateRecords(source, wanted);
    ghost var jobs := PlanJobs(source.device, records, clusterSize, destination, items);
    ghost var s := SettingOf(old(fs.nodes), jobs, destination, overwrite);
    RunStarts(s, fs.nodes, fs.quiet);
    var done;
    ghost var preparation := fs.log[|old(fs.log)|..];
    assert fs.log == old(fs.log) + preparation;
    ghost var ran;
    done, ran := RunLocated(source, fs, items, records, clusterSize, destination, overwrite, s, preparation);
    assert fs.log == old(fs.log) + ran.Calls() by { Regroup(old(fs.log), preparation, Flatten(ran.turns)); }
    return Some(done), Some(ran);
  }

  /** The part of a run after the records were located. */
  method RunLocated(source: Source, fs: FileSystem, items: seq<Item>, records: map<nat, seq<byte>>, clusterSize: uint64,
                    destination: Path, overwrite: bool, ghost s: Setting, ghost preparation: seq<Effect>)
    returns (stats: RecoverStats, ghost run: Ran)
    requires fs.Valid() && WellCollected(items) && Located(source.device, FileIds(items), records)
    requires AreJobs(s.jobs, source.device, records, clusterSize, destination, items)
    requires IsExact(s) && s.destination == destination && s.overwrite == overwrite
    requires RunUpTo(s, 0, {}, fs.nodes, fs.quiet) && EffectsMakeDirectories(preparation, 0, destination)
    modifies source`interruptions, fs
    ensures fs.Valid() && fs.log == old(fs.log) + Flatten(run.turns)
    ensures run.stats == stats && run.clusterSize == clusterSize && run.preparation == preparation
    ensures IsRun(run, source.device, items, destination, s.first, fs.nodes, overwrite, fs.quiet)
  {
    ghost var recovered, directoriesMade, turns;
    stats, recovered, directoriesMade, turns :=
      RunItems(source, fs, records, clusterSize, destination, items, overwrite, s);
    run := Ran(stats, s, recovered, directoriesMade, records, clusterSize, preparation, turns);
  }

  /** What a run needs that does not throw: a boot sector, a row of the root record, and no collision of paths. */
  ghost predicate CanRun(d: Device, rows: set<StoredRecord>, rootRecordId: nat) {
    && ClusterSizeOf(d).Some?
    && (exists r :: r in rows && r.recordIdGuess == rootRecordId)
    && CollectedTree(rows, rootRecordId).Some?
  }

  /** Main result: a whole run. It throws before touching any file, or while making the destination, or it works
      through exactly the items of the collected tree with the located records. A dry run touches nothing. On a quiet
      file system and a steady device it throws exactly when the boot sector, the root row or the collection do not
      allow it, or something is in the way of the destination. */
  method Run(source: Source, fs: FileSystem, rows: seq<StoredRecord>, rootRecordId: nat, destination: Path,
             overwrite: bool, dryRun: bool)
    returns (stats: Option<RecoverStats>, ghost items: seq<Item>, ghost run: Option<Ran>)
    requires fs.Valid() && DistinctIds(Elements(rows))
    modifies source`interruptions, fs
    ensures fs.Valid() && old(fs.log) <= fs.log
    ensures stats.None? ==> Preserves(old(fs.nodes), fs.nodes, {})
    ensures stats.Some? ==>
              && CanRun(source.device, Elements(rows), rootRecordId)
              && items == CollectedTree(Elements(rows), rootRecordId).value.items
    ensures fs.quiet && source.steady ==>
              (stats.Some? <==> CanRun(source.device, Elements(rows), rootRecordId)
                                && (dryRun || PathFree(old(fs.nodes), destination)))
    ensures stats.Some? && dryRun ==>
              fs.nodes == old(fs.nodes) && fs.log == old(fs.log) && stats.value == RecoverStats(|items|, 0, 0)
    ensures stats.Some? && !dryRun ==>
              && run.Some? && stats.value == run.value.stats
              && Some(run.value.clusterSize) == ClusterSizeOf(source.device)
              && fs.log == old(fs.log) + run.value.Calls()
              && IsRun(run.value, source.device, items, destination, old(fs.nodes), fs.nodes, overwrite, fs.quiet)
  {
    stats, items, run := None, [], None;
    var rejected := fs.Fails();
    if rejected {
      return;
    }
    var size := ReadClusterSize(source);
    if size.None? {
      return;
    }
    var indexed := exists r :: r in rows && r.recordIdGuess == rootRecordId;
    assert indexed <==> exists r :: r in Elements(rows) && r.recordIdGuess == rootRecordId;
    if !indexed {
      return;
    }
    var collector := new TreeCollector(rows);
    var collected := collector.CollectTree(rootRecordId, []);
    if !collected {
      return;
    }
    items := collector.items;
    if dryRun {
      stats := Some(RecoverStats(|collector.items|, 0, 0));
      return;
    }
    TreeIsWellCollected(Elements(rows), rootRecordId);
    stats, run := RunCollected(source, fs, collector.items, size.value, destination, overwrite);
  }
}
