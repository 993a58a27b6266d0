/** What a run over the collected items does to a quiet file system, as a function of the items and the files before. */
module Jobs {
  import opened Options
  import opened LittleEndian
  import opened Names
  import opened FileSystems
  import opened Directories
  import opened AtomicFiles
  import opened FileRecovery

  /** One item of a run: where it goes, whether a file would be opened for it, and the content it should get. */
  datatype Job = Job(target: Path, isDirectory: bool, chosen: bool, content: Option<seq<byte>>) {
    predicate Sound() { target != [] && (content.Some? ==> chosen && !isDirectory) && (isDirectory ==> !chosen) }
  }

  /** The directory a job makes: its target, or the one its file goes to. */
  function Home(job: Job): Path {
    if job.isDirectory || job.target == [] then job.target else job.target[..|job.target| - 1]
  }

  /** Job `j`, before job `i`, makes the directory `p`. */
  predicate IsDirectoryJob(jobs: seq<Job>, i: nat, j: int, p: Path) {
    0 <= j < i <= |jobs| && jobs[j].isDirectory && jobs[j].target == p
  }

  ghost predicate MadeBefore(jobs: seq<Job>, i: nat, p: Path) {
    exists j :: IsDirectoryJob(jobs, i, j, p)
  }

  /** Every directory between the destination and the target of a job is made by an earlier job. */
  ghost predicate ParentsFirst(jobs: seq<Job>, destination: Path) {
    forall i, n {:trigger MadeBefore(jobs, i, jobs[i].target[..n])} ::
      0 <= i < |jobs| && |destination| < n < |jobs[i].target| ==> MadeBefore(jobs, i, jobs[i].target[..n])
  }

  ghost predicate DistinctTargets(jobs: seq<Job>) {
    forall i, j :: 0 <= i < j < |jobs| ==> jobs[i].target != jobs[j].target
  }

  /** Once a file was written under its partial name, no directory of that name is needed any more. */
  ghost predicate PartialsAside(jobs: seq<Job>) {
    forall m, i :: 0 <= m < i < |jobs| && !jobs[m].isDirectory && jobs[m].target != [] ==>
                     !(PartialOf(jobs[m].target) <= Home(jobs[i]))
  }

  /** Targets are distinct, lie below the destination, and stand in it or in the directory of an earlier job. */
  ghost predicate IsPlan(jobs: seq<Job>, destination: Path) {
    && (forall i :: 0 <= i < |jobs| ==> jobs[i].Sound() && destination < jobs[i].target)
    && DistinctTargets(jobs) && ParentsFirst(jobs, destination) && PartialsAside(jobs)
  }

  /** The name job `j` writes its file under is the final name of an earlier job `i`. */
  predicate Clashes(jobs: seq<Job>, i: int, j: int) {
    && 0 <= i < j < |jobs| && !jobs[j].isDirectory && jobs[j].target != []
    && PartialOf(jobs[j].target) == jobs[i].target
  }

  //
  // Which jobs open their file, and which succeed
  //

  /** A directory of the plan has the name job `k` writes its file under. */
  ghost predicate PartialIsDirectory(jobs: seq<Job>, k: nat)
    requires k < |jobs| && jobs[k].target != []
  {
    exists j :: 0 <= j < |jobs| && jobs[j].isDirectory && jobs[j].target == PartialOf(jobs[k].target)
  }

  /** Whether job `k` opens its file, told from the files before the run: a data attribute was chosen, nothing is in
      the way of the directories, of the target or of the partial file, and, unless overwriting, no earlier job was
      recovered under the partial name. */
  ghost predicate Opens(first: Nodes, jobs: seq<Job>, overwrite: bool, k: nat)
    decreases k
  {
    && k < |jobs| && jobs[k].Sound() && jobs[k].chosen
    && PathFree(first, Home(jobs[k])) && CanOpen(first, jobs[k].target, overwrite)
    && (At(first, PartialOf(jobs[k].target)).None? ==> !PartialIsDirectory(jobs, k))
    && (!overwrite ==> forall m: nat :: m < k && Clashes(jobs, m, k) ==>
                                          !(Opens(first, jobs, overwrite, m) && jobs[m].content.Some?))
  }

  ghost predicate Recovers(first: Nodes, jobs: seq<Job>, overwrite: bool, k: nat) {
    Opens(first, jobs, overwrite, k) && jobs[k].content.Some?
  }

  /** A run: the files before it, its jobs, whether it overwrites, and the jobs that open their file. */
  datatype Setting = Setting(first: Nodes, jobs: seq<Job>, destination: Path, overwrite: bool, openers: set<nat>) {
    ghost predicate Valid() {
      && IsPlan(jobs, destination)
      && forall k :: k in openers ==> k < |jobs| && jobs[k].chosen && !jobs[k].isDirectory
    }

    predicate Recovered(k: nat) { k in openers && k < |jobs| && jobs[k].content.Some? }
  }

  ghost predicate IsExact(s: Setting) {
    s.Valid() && forall k: nat {:trigger k in s.openers} ::
                   k in s.openers <==> Opens(s.first, s.jobs, s.overwrite, k)
  }

  ghost function SettingOf(first: Nodes, jobs: seq<Job>, destination: Path, overwrite: bool): (s: Setting)
    requires IsPlan(jobs, destination)
    ensures IsExact(s)
    ensures s.first == first && s.jobs == jobs && s.destination == destination && s.overwrite == overwrite
  {
    Setting(first, jobs, destination, overwrite, set k: nat | k < |jobs| && Opens(first, jobs, overwrite, k))
  }

  //
  // The files after the first jobs
  //

  /** The file of job `i` was recovered and no job between it and `n` has opened a partial file in its place. */
  ghost predicate Holds(s: Setting, n: nat, i: nat) {
    i < n <= |s.jobs| && s.Recovered(i) && forall k: nat :: i < k < n && Clashes(s.jobs, i, k) ==> k !in s.openers
  }

  ghost predicate Held(s: Setting, n: nat, p: Path) {
    exists i: nat :: Holds(s, n, i) && s.jobs[i].target == p
  }

  /** Job `k` opened its partial file at `p`. */
  ghost predicate IsClearedBy(s: Setting, n: nat, k: nat, p: Path) {
    k < n && k in s.openers && k < |s.jobs| && s.jobs[k].target != [] && PartialOf(s.jobs[k].target) == p
  }

  ghost predicate Cleared(s: Setting, n: nat, p: Path) {
    exists k: nat :: IsClearedBy(s, n, k, p)
  }

  /** `p` lies on the way to the destination or to a directory of the first `n` jobs, with nothing in the way. */
  ghost predicate MadeBy(s: Setting, n: nat, p: Path) {
    && p != [] && PathFree(s.first, p)
    && (p <= s.destination || exists i: nat :: i < n <= |s.jobs| && p <= Home(s.jobs[i]))
  }

  ghost function Base(s: Setting, n: nat, p: Path): Option<Node> {
    if MadeBy(s, n, p) && At(s.first, p).None? then Some(Directory) else At(s.first, p)
  }

  /** `node` is what stands at `p` when `n` jobs are done and the directories of `made` jobs were made. */
  ghost predicate AtState(s: Setting, n: nat, made: nat, p: Path, node: Option<Node>) {
    && (forall i: nat :: Holds(s, n, i) && s.jobs[i].target == p ==> node == Some(Regular(s.jobs[i].content.value)))
    && (!Held(s, n, p) ==> node == if Cleared(s, n, p) then None else Base(s, made, p))
  }

  ghost predicate IsState(s: Setting, n: nat, made: nat, nodes: Nodes) {
    forall p :: AtState(s, n, made, p, At(nodes, p))
  }

  /** What one job does to a quiet file system. */
  ghost function QuietJob(nodes: Nodes, job: Job, overwrite: bool): Nodes
    requires job.target != []
  {
    var made := MadePath(nodes, Home(job));
    if job.isDirectory || !PathFree(nodes, Home(job)) then made
    else QuietResult(made, job.target, job.chosen, job.content, overwrite)
  }

  //
  // One job
  //

  /** No directory that a run needs has the name of a file of the run. */
  lemma FileIsNoHome(s: Setting, f: nat, i: nat)
    requires s.Valid() && f < |s.jobs| && i < |s.jobs| && !s.jobs[f].isDirectory
    ensures !(s.jobs[f].target <= Home(s.jobs[i]))
  {
    var target := s.jobs[f].target;
    assert s.destination < target && s.jobs[i].Sound();
    assert |target| < |s.jobs[i].target| && target == s.jobs[i].target[..|target|] ==> MadeBefore(s.jobs, i, target);
  }

  /** What stands on the way to a job's directory, when its turn comes, does not come from files of the run. */
  lemma HomeIsUntouched(s: Setting, n: nat, q: Path)
    requires s.Valid() && n < |s.jobs| && q <= Home(s.jobs[n])
    ensures !Held(s, n, q) && !Cleared(s, n, q)
  {
    if Held(s, n, q) {
      var i: nat :| Holds(s, n, i) && s.jobs[i].target == q;
      FileIsNoHome(s, i, n);
    }
  }

  lemma HomeIsFree(s: Setting, n: nat, nodes: Nodes, q: Path)
    requires s.Valid() && n < |s.jobs| && q <= Home(s.jobs[n]) && IsState(s, n, n, nodes)
    ensures PathFree(nodes, q) <==> PathFree(s.first, q)
  {
    forall k | 0 < k <= |q|
      ensures At(nodes, q[..k]).None? || At(nodes, q[..k]) == Some(Directory) <==>
              At(s.first, q[..k]).None? || At(s.first, q[..k]) == Some(Directory)
    {
      HomeIsUntouched(s, n, q[..k]);
      assert AtState(s, n, n, q[..k], At(nodes, q[..k]));
    }
  }

  /** Making the directory of job `n`. */
  lemma HomeIsMade(s: Setting, n: nat, nodes: Nodes)
    requires s.Valid() && n < |s.jobs| && IsState(s, n, n, nodes)
    ensures IsState(s, n, n + 1, MadePath(nodes, Home(s.jobs[n])))
  {
    var home := Home(s.jobs[n]);
    forall p
      ensures AtState(s, n, n + 1, p, At(MadePath(nodes, home), p))
    {
      assert AtState(s, n, n, p, At(nodes, p));
      if p != [] && p <= home {
        HomeIsUntouched(s, n, p);
        HomeIsFree(s, n, nodes, p);
      } else {
        assert MadeBy(s, n + 1, p) <==> MadeBy(s, n, p);
      }
    }
  }

  lemma ClearedNext(s: Setting, n: nat, p: Path)
    ensures Cleared(s, n + 1, p) <==> Cleared(s, n, p) || IsClearedBy(s, n + 1, n, p)
  {
    if k: nat :| IsClearedBy(s, n, k, p) {
      assert IsClearedBy(s, n + 1, k, p);
    }
    var next := n + 1;
    if k: nat :| IsClearedBy(s, next, k, p) {
      assert k < n ==> IsClearedBy(s, n, k, p);
    }
  }

  lemma HoldsNext(s: Setting, n: nat, i: nat)
    requires n < |s.jobs|
    ensures Holds(s, n + 1, i) <==>
            if i < n then Holds(s, n, i) && !(Clashes(s.jobs, i, n) && n in s.openers) else i == n && s.Recovered(n)
  {
  }

  /** A job that opens no file changes nothing but directories. */
  lemma UnopenedChangesNothing(s: Setting, n: nat, made: nat, nodes: Nodes)
    requires n < |s.jobs| && n !in s.openers && IsState(s, n, made, nodes)
    ensures IsState(s, n + 1, made, nodes)
  {
    forall p
      ensures AtState(s, n + 1, made, p, At(nodes, p))
    {
      assert AtState(s, n, made, p, At(nodes, p));
      forall i: nat
        ensures Holds(s, n + 1, i) <==> Holds(s, n, i)
      {
        HoldsNext(s, n, i);
      }
      ClearedNext(s, n, p);
    }
  }

  /** The target of a file job is as free when its turn comes as it was before the run. */
  lemma TargetIsFree(s: Setting, n: nat, made: Nodes)
    requires IsExact(s) && n < |s.jobs| && !s.jobs[n].isDirectory && IsState(s, n, n + 1, made)
    ensures IsFree(made, s.jobs[n].target, s.overwrite) <==> IsFree(s.first, s.jobs[n].target, s.overwrite)
    ensures !Cleared(s, n, s.jobs[n].target) ==> At(made, s.jobs[n].target) == At(s.first, s.jobs[n].target)
  {
    var target := s.jobs[n].target;
    assert AtState(s, n, n + 1, target, At(made, target));
    forall i: nat | i <= n
      ensures !(target <= Home(s.jobs[i]))
    {
      FileIsNoHome(s, n, i);
    }
    assert s.destination < target;
    assert !MadeBy(s, n + 1, target) && !Held(s, n, target);
    if k: nat :| IsClearedBy(s, n, k, target) {
      assert Opens(s.first, s.jobs, s.overwrite, k);
    }
  }

  lemma HomePrefixIsDirectory(s: Setting, i: nat, p: Path)
    requires s.Valid() && i < |s.jobs| && |s.destination| < |p| && p <= Home(s.jobs[i])
    ensures exists j :: 0 <= j < |s.jobs| && s.jobs[j].isDirectory && s.jobs[j].target == p
  {
    var k := |p|;
    assert s.jobs[i].Sound() && p == s.jobs[i].target[..k];
    if k < |s.jobs[i].target| {
      assert MadeBefore(s.jobs, i, s.jobs[i].target[..k]);
      var j :| IsDirectoryJob(s.jobs, i, j, p);
    } else {
      assert s.jobs[i].isDirectory && s.jobs[i].target == p;
    }
  }

  lemma DirectoryJobMakes(s: Setting, n: nat, j: nat)
    requires s.Valid() && n < |s.jobs| && !s.jobs[n].isDirectory && j < |s.jobs| && s.jobs[j].isDirectory
    requires s.jobs[j].target == PartialOf(s.jobs[n].target)
    ensures j < n && PartialOf(s.jobs[n].target) <= Home(s.jobs[j])
  {
    assert Home(s.jobs[j]) == s.jobs[j].target;
  }

  /** The partial name of a file is made a directory exactly by a directory job. */
  lemma PartialIsMade(s: Setting, n: nat)
    requires s.Valid() && n < |s.jobs| && !s.jobs[n].isDirectory && PathFree(s.first, PartialOf(s.jobs[n].target))
    ensures MadeBy(s, n + 1, PartialOf(s.jobs[n].target)) <==> PartialIsDirectory(s.jobs, n)
  {
    var partial := PartialOf(s.jobs[n].target);
    assert |s.destination| < |s.jobs[n].target| == |partial|;
    if MadeBy(s, n + 1, partial) {
      var i: nat :| i < n + 1 && partial <= Home(s.jobs[i]);
      HomePrefixIsDirectory(s, i, partial);
    }
    if PartialIsDirectory(s.jobs, n) {
      var j :| 0 <= j < |s.jobs| && s.jobs[j].isDirectory && s.jobs[j].target == partial;
      DirectoryJobMakes(s, n, j);
    }
  }

  /** A recovered file of the partial name still stands there. */
  lemma PartialHeld(s: Setting, n: nat)
    requires s.Valid() && n < |s.jobs| && !s.jobs[n].isDirectory
    ensures Held(s, n, PartialOf(s.jobs[n].target)) <==>
      exists m: nat :: m < n && Clashes(s.jobs, m, n) && s.Recovered(m)
    ensures !Cleared(s, n, PartialOf(s.jobs[n].target))
  {
    var partial := PartialOf(s.jobs[n].target);
    if k: nat :| IsClearedBy(s, n, k, partial) {
      PartialOfInjective(s.jobs[k].target, s.jobs[n].target);
    }
    if m: nat :| m < n && Clashes(s.jobs, m, n) && s.Recovered(m) {
      forall k: nat | m < k < n && Clashes(s.jobs, m, k)
        ensures false
      {
        PartialOfInjective(s.jobs[k].target, s.jobs[n].target);
      }
      assert Holds(s, n, m);
    }
  }

  lemma PartialIsFree(s: Setting, n: nat, made: Nodes)
    requires IsExact(s) && n < |s.jobs| && !s.jobs[n].isDirectory && IsState(s, n, n + 1, made)
    requires PathFree(s.first, Home(s.jobs[n]))
    ensures var partial := PartialOf(s.jobs[n].target);
            IsFree(made, partial, s.overwrite) <==>
              && IsFree(s.first, partial, s.overwrite)
              && (At(s.first, partial).None? ==> !PartialIsDirectory(s.jobs, n))
              && (!s.overwrite ==> forall m: nat :: m < n && Clashes(s.jobs, m, n) ==> !s.Recovered(m))
  {
    var partial := PartialOf(s.jobs[n].target);
    assert AtState(s, n, n + 1, partial, At(made, partial));
    PartialHeld(s, n);
    if Held(s, n, partial) {
      var i: nat :| Holds(s, n, i) && s.jobs[i].target == partial;
      HeldIsNoDirectory(s, n, i);
      assert Opens(s.first, s.jobs, s.overwrite, i) && Clashes(s.jobs, i, n);
    } else if At(s.first, partial).None? {
      var k := |partial|;
      assert partial[..k - 1] == Home(s.jobs[n]);
      assert partial[..k] == partial;
      PathFreeStep(s.first, partial, k);
      PartialIsMade(s, n);
    }
  }

  lemma HeldIsNoDirectory(s: Setting, n: nat, i: nat)
    requires s.Valid() && n < |s.jobs| && i < n && s.Recovered(i)
    requires !s.jobs[n].isDirectory && s.jobs[i].target == PartialOf(s.jobs[n].target)
    ensures !PartialIsDirectory(s.jobs, n)
  {
    assert !s.jobs[i].isDirectory;
  }

  /** Main step: the constructor's conditions hold, when the turn of a job has come and its directory was made,
      exactly when the files before the run say so. */
  lemma OpensIffFree(s: Setting, n: nat, made: Nodes)
    requires IsExact(s) && n < |s.jobs| && !s.jobs[n].isDirectory && IsState(s, n, n + 1, made)
    ensures n in s.openers <==>
            PathFree(s.first, Home(s.jobs[n])) && s.jobs[n].chosen && CanOpen(made, s.jobs[n].target, s.overwrite)
  {
    assert s.jobs[n].Sound();
    if PathFree(s.first, Home(s.jobs[n])) {
      TargetIsFree(s, n, made);
      PartialIsFree(s, n, made);
    }
  }

  /** After a file was opened: its partial name is free again, and its target has the content if there is one. */
  lemma OpenedResult(s: Setting, n: nat, made: Nodes)
    requires s.Valid() && n < |s.jobs| && n in s.openers && IsState(s, n, n + 1, made)
    requires CanOpen(made, s.jobs[n].target, s.overwrite)
    ensures IsState(s, n + 1, n + 1, QuietResult(made, s.jobs[n].target, true, s.jobs[n].content, s.overwrite))
  {
    var job := s.jobs[n];
    var partial := PartialOf(job.target);
    var after := QuietResult(made, job.target, true, job.content, s.overwrite);
    forall p
      ensures AtState(s, n + 1, n + 1, p, At(after, p))
    {
      assert AtState(s, n, n + 1, p, At(made, p));
      if p == partial {
        OpenedPartial(s, n);
      } else if p == job.target {
        OpenedTarget(s, n, made, after);
      } else {
        OpenedElsewhere(s, n, p);
      }
    }
  }

  lemma OpenedPartial(s: Setting, n: nat)
    requires s.Valid() && n < |s.jobs| && n in s.openers
    ensures var partial := PartialOf(s.jobs[n].target); Cleared(s, n + 1, partial) && !Held(s, n + 1, partial)
  {
    var partial := PartialOf(s.jobs[n].target);
    assert IsClearedBy(s, n + 1, n, partial);
    if i: nat :| Holds(s, n + 1, i) && s.jobs[i].target == partial {
      HoldsNext(s, n, i);
      assert Clashes(s.jobs, i, n);
    }
  }

  lemma OpenedTarget(s: Setting, n: nat, made: Nodes, after: Nodes)
    requires s.Valid() && n < |s.jobs| && n in s.openers
    requires var job := s.jobs[n];
             && AtState(s, n, n + 1, job.target, At(made, job.target))
             && At(after, job.target) ==
               if job.content.Some? then Some(Regular(job.content.value)) else At(made, job.target)
    ensures AtState(s, n + 1, n + 1, s.jobs[n].target, At(after, s.jobs[n].target))
  {
    var target := s.jobs[n].target;
    forall i: nat | i < |s.jobs| && s.jobs[i].target == target
      ensures i == n
    {
    }
    ClearedNext(s, n, target);
    HoldsNext(s, n, n);
    assert Held(s, n + 1, target) <==> Holds(s, n + 1, n);
    assert !Held(s, n, target);
  }

  lemma OpenedElsewhere(s: Setting, n: nat, p: Path)
    requires s.Valid() && n < |s.jobs| && n in s.openers && p != s.jobs[n].target && p != PartialOf(s.jobs[n].target)
    ensures Cleared(s, n + 1, p) <==> Cleared(s, n, p)
    ensures forall i: nat :: i < |s.jobs| && s.jobs[i].target == p ==> (Holds(s, n + 1, i) <==> Holds(s, n, i))
    ensures Held(s, n + 1, p) <==> Held(s, n, p)
  {
    ClearedNext(s, n, p);
    forall i: nat | i < |s.jobs| && s.jobs[i].target == p
      ensures Holds(s, n + 1, i) <==> Holds(s, n, i)
    {
      HoldsNext(s, n, i);
      assert i != n && !Clashes(s.jobs, i, n);
    }
    assert forall i: nat :: Holds(s, n, i) || Holds(s, n + 1, i) ==> i < |s.jobs|;
  }

  /** Main result: one job takes the files after the jobs before it to the files after it. */
  lemma JobResult(s: Setting, n: nat, nodes: Nodes)
    requires IsExact(s) && n < |s.jobs| && IsState(s, n, n, nodes)
    ensures s.jobs[n].target != [] && IsState(s, n + 1, n + 1, QuietJob(nodes, s.jobs[n], s.overwrite))
    ensures s.Recovered(n) <==> !s.jobs[n].isDirectory && s.jobs[n].content.Some? && PathFree(nodes, Home(s.jobs[n]))
                                && CanOpen(MadePath(nodes, Home(s.jobs[n])), s.jobs[n].target, s.overwrite)
  {
    var job := s.jobs[n];
    var made := MadePath(nodes, Home(job));
    assert job.Sound();
    HomeIsMade(s, n, nodes);
    HomeIsFree(s, n, nodes, Home(job));
    if job.isDirectory {
      UnopenedChangesNothing(s, n, n + 1, made);
    } else {
      OpensIffFree(s, n, made);
      if n in s.openers {
        OpenedResult(s, n, made);
      } else {
        UnopenedChangesNothing(s, n, n + 1, made);
      }
    }
  }

  /** Before the first job, once the destination was made. */
  lemma StateAtStart(s: Setting)
    ensures IsState(s, 0, 0, MadePath(s.first, s.destination))
  {
  }

  /** Main result: a recovered file stands complete at the end if and only if no later job that opens its file is
      written under its name. */
  lemma FinalContents(s: Setting, nodes: Nodes, i: nat)
    requires s.Valid() && IsState(s, |s.jobs|, |s.jobs|, nodes) && s.Recovered(i)
    ensures At(nodes, s.jobs[i].target) == Some(Regular(s.jobs[i].content.value)) <==>
            !exists k: nat :: Clashes(s.jobs, i, k) && k in s.openers
    ensures (exists k: nat :: Clashes(s.jobs, i, k) && k in s.openers) ==> At(nodes, s.jobs[i].target) == None
  {
    var n, target := |s.jobs|, s.jobs[i].target;
    assert AtState(s, n, n, target, At(nodes, target));
    if k: nat :| Clashes(s.jobs, i, k) && k in s.openers {
      assert IsClearedBy(s, n, k, target);
      ClashedIsNotHeld(s, i, k);
    } else {
      assert Holds(s, n, i);
    }
  }

  lemma ClashedIsNotHeld(s: Setting, i: nat, k: nat)
    requires s.Valid() && i < |s.jobs| && Clashes(s.jobs, i, k) && k in s.openers
    ensures !Held(s, |s.jobs|, s.jobs[i].target)
  {
    forall j: nat | Holds(s, |s.jobs|, j)
      ensures s.jobs[j].target != s.jobs[i].target
    {
      if j != i {
        assert s.jobs[if j < i then j else i].target != s.jobs[if j < i then i else j].target;
      }
    }
  }

  /** Main result: without overwriting no recovered file is lost; when overwriting, a later job that clashes with a
      recovered one opens exactly when a data attribute was chosen for it and its own target was free. */
  lemma ClashOpensIff(s: Setting, i: nat, k: nat)
    requires IsExact(s) && s.Recovered(i) && Clashes(s.jobs, i, k)
    ensures !s.overwrite ==> k !in s.openers
    ensures s.overwrite ==> (k in s.openers <==> s.jobs[k].chosen && IsFree(s.first, s.jobs[k].target, true))
  {
    HeldIsNoDirectory(s, k, i);
    assert s.jobs[k].Sound() && s.jobs[i].Sound();
    assert Home(s.jobs[i]) == Home(s.jobs[k]);
    assert Opens(s.first, s.jobs, s.overwrite, i);
    assert k in s.openers <==> Opens(s.first, s.jobs, s.overwrite, k);
  }
}
