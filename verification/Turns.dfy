/** The calls that one item of a run makes, and what they may have done to its final path. */
module Turns {
  import opened Options
  import opened LittleEndian
  import opened Names
  import opened Sequences
  import opened FileSystems
  import opened Directories
  import opened AtomicFiles
  import opened Jobs

  /** A call may make the directories of the item, and write its partial and its final path. */
  ghost predicate CallIsFor(e: Effect, job: Job)
    requires job.target != []
  {
    forall p :: At(e.after, p) != At(e.before, p) ==>
                  p <= Home(job) || (!job.isDirectory && (p == job.target || p == PartialOf(job.target)))
  }

  /** The calls of one item. A file that was skipped was left alone, unless the fallback of its publication failed. */
  ghost predicate IsTurn(turn: seq<Effect>, job: Job, recovered: bool, overwrite: bool) {
    && job.target != []
    && (forall i :: 0 <= i < |turn| ==> CallIsFor(turn[i], job))
    && (!job.isDirectory && !recovered ==> FailedPublication(turn, 0, 1, job.target, job.content, overwrite))
  }

  lemma DirectoryCall(e: Effect, job: Job)
    requires job.target != [] && OnlyMakesDirectories(e, Home(job))
    ensures CallIsFor(e, job)
    ensures !job.isDirectory ==> At(e.after, job.target) == At(e.before, job.target)
  {
  }

  /** An item that only made directories. */
  lemma DirectoryTurn(log: seq<Effect>, start: nat, job: Job, overwrite: bool)
    requires start <= |log| && job.target != [] && EffectsMakeDirectories(log, start, Home(job))
    ensures IsTurn(log[start..], job, false, overwrite)
  {
    forall i | 0 <= i < |log| - start
      ensures CallIsFor(log[start..][i], job)
      ensures !job.isDirectory ==> At(log[start..][i].after, job.target) == At(log[start..][i].before, job.target)
    {
      DirectoryCall(log[start + i], job);
    }
  }

  /** A file's item that went on, from call `middle` on, to open, write and publish the file. */
  lemma FileTurn(log: seq<Effect>, start: nat, middle: nat, longer: seq<Effect>, job: Job, recovered: bool,
                 overwrite: bool)
    requires start <= middle == |log| && log <= longer && job.target != [] && !job.isDirectory
    requires EffectsMakeDirectories(log, start, Home(job))
    requires SafeEffects(longer, middle, job.target, job.content, overwrite)
    requires !recovered ==> FailedPublication(longer, middle, 1, job.target, job.content, overwrite)
    ensures IsTurn(longer[start..], job, recovered, overwrite)
  {
    assert forall i :: 0 <= i < middle ==> longer[i] == log[i];
    forall i | start <= i < |longer|
      ensures CallIsFor(longer[i], job)
      ensures i < middle ==> At(longer[i].after, job.target) == At(longer[i].before, job.target)
    {
      if i < middle {
        DirectoryCall(log[i], job);
      } else {
        assert OnlyTouches(longer[i], {job.target, PartialOf(job.target)});
      }
    }
    if !recovered {
      FailedLater(longer, start, middle, 1, job.target, job.content, overwrite);
      FailedTurn(longer, start, job.target, job.content, overwrite);
    }
  }

  lemma FailedTurn(log: seq<Effect>, start: nat, final: Path, content: Option<seq<byte>>, overwrite: bool)
    requires start <= |log| && FailedPublication(log, start, 1, final, content, overwrite)
    ensures FailedPublication(log[start..], 0, 1, final, content, overwrite)
  {
    var turn := log[start..];
    assert forall i :: 0 <= i < |turn| ==> turn[i] == log[start + i];
    if LeavesFinal(log, start, final) {
      assert LeavesFinal(turn, 0, final);
    } else {
      FallbackTurn(log, start, |log| - 4, final, content.value);
    }
  }

  lemma FallbackTurn(log: seq<Effect>, start: nat, m: int, final: Path, content: seq<byte>)
    requires start <= |log| && FallbackFailed(log, start, m, final, content)
    ensures FallbackFailed(log[start..], 0, m - start, final, content)
  {
    var turn := log[start..];
    forall i | 0 <= i < |turn|
      ensures turn[i] == log[start + i]
    {
    }
  }

  //
  // The calls of a run
  //

  /** The turns of the first items, in order. */
  ghost predicate AreTurns(turns: seq<seq<Effect>>, jobs: seq<Job>, recovered: set<nat>, overwrite: bool) {
    && |turns| <= |jobs|
    && forall i :: 0 <= i < |turns| ==> IsTurn(turns[i], jobs[i], i in recovered, overwrite)
  }

  lemma {:induction false} FlattenMore<T>(pieces: seq<seq<T>>, last: seq<T>)
    ensures Flatten(pieces + [last]) == Flatten(pieces) + last
    decreases |pieces|
  {
    if pieces == [] {
      assert [last][1..] == [];
      NothingAdded(last);
    } else {
      assert (pieces + [last])[1..] == pieces[1..] + [last];
      FlattenMore(pieces[1..], last);
      Regroup(pieces[0], Flatten(pieces[1..]), last);
    }
  }

  /** One more item had its turn. */
  lemma NextTurn(turns: seq<seq<Effect>>, turn: seq<Effect>, jobs: seq<Job>, recovered: set<nat>, more: set<nat>,
                 overwrite: bool)
    requires AreTurns(turns, jobs, recovered, overwrite) && |turns| < |jobs|
    requires IsTurn(turn, jobs[|turns|], |turns| in more, overwrite)
    requires forall i: nat :: i < |turns| ==> (i in more <==> i in recovered)
    ensures AreTurns(turns + [turn], jobs, more, overwrite)
  {
  }

  lemma {:induction false} FlattenLeaves(turns: seq<seq<Effect>>, final: Path)
    requires forall i :: 0 <= i < |turns| ==> LeavesFinal(turns[i], 0, final)
    ensures LeavesFinal(Flatten(turns), 0, final)
    decreases |turns|
  {
    if turns != [] {
      FlattenLeaves(turns[1..], final);
    }
  }
}
