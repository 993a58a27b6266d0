/** Writing a file under a partial name and publishing it under its final name. */
module AtomicFiles {
  import opened Options
  import opened Sequences
  import opened LittleEndian
  import opened Names
  import opened FileSystems

  const PARTIAL_SUFFIX: seq<byte> := [0x2E, 0x70, 0x61, 0x72, 0x74, 0x69, 0x61, 0x6C]

  /** The name a file is written under: the final path with ".partial" appended. */
  function PartialOf(path: Path): (r: Path)
    requires path != []
    ensures |r| == |path| && r != path
    ensures r[..|r| - 1] == path[..|path| - 1]
  {
    var last := path[|path| - 1] + PARTIAL_SUFFIX;
    assert |last| == |path[|path| - 1]| + 8;
    path[|path| - 1 := last]
  }

  lemma PartialOfInjective(a: Path, b: Path)
    requires a != [] && b != [] && PartialOf(a) == PartialOf(b)
    ensures a == b
  {
    var n := |a| - 1;
    assert a[..n] == PartialOf(a)[..n] == PartialOf(b)[..n] == b[..n];
    var x, y := PartialOf(a)[n], PartialOf(b)[n];
    assert a[n] == x[..|x| - 8] && b[n] == y[..|y| - 8];
    assert a == a[..n] + [a[n]] && b == b[..n] + [b[n]];
  }

  //
  // What is safe to do to the final path
  //

  ghost predicate EffectsTouch(log: seq<Effect>, start: nat, paths: set<Path>) {
    forall i :: start <= i < |log| ==> OnlyTouches(log[i], paths)
  }

  /** A call that makes the complete content appear at the final path; without overwriting, where there was nothing. */
  ghost predicate Publishes(e: Effect, final: Path, content: seq<byte>, overwrite: bool) {
    At(e.after, final) == Some(Regular(content)) && (overwrite || At(e.before, final) == None)
  }

  /** Call `i` leaves the final path alone, publishes, or takes back what an earlier call published. */
  ghost predicate FinalSafe(log: seq<Effect>, start: nat, i: nat, final: Path, content: Option<seq<byte>>,
                            overwrite: bool)
    requires i < |log|
  {
    || At(log[i].after, final) == At(log[i].before, final)
    || (content.Some? && Publishes(log[i], final, content.value, overwrite))
    || (content.Some? && !overwrite && At(log[i].after, final) == None
        && exists j :: start <= j < i && Publishes(log[j], final, content.value, overwrite))
  }

  /** Every call from `start` on is safe, and touches only the partial and the final path. */
  ghost predicate SafeEffects(log: seq<Effect>, start: nat, final: Path, content: Option<seq<byte>>, overwrite: bool)
    requires final != []
  {
    forall i :: start <= i < |log| ==>
                  OnlyTouches(log[i], {final, PartialOf(final)}) && FinalSafe(log, start, i, final, content, overwrite)
  }

  /** No call from `start` on changed the final path. */
  ghost predicate LeavesFinal(log: seq<Effect>, start: nat, final: Path) {
    forall i :: start <= i < |log| ==> At(log[i].after, final) == At(log[i].before, final)
  }

  /** The fallback of a publication without overwriting failed at call `m`: the file was linked to its final name, the
      partial name could not be removed, and removing the final name again either succeeded or failed, too. No other
      call from `start` on changed the final path. */
  ghost predicate FallbackFailed(log: seq<Effect>, start: nat, m: int, final: Path, content: seq<byte>) {
    && start <= m && m + 3 <= |log|
    && At(log[m].before, final) == None && log[m].after == With(log[m].before, final, Regular(content))
    && log[m + 1].after == log[m + 1].before
    && (log[m + 2].after == Without(log[m + 2].before, final) || log[m + 2].after == log[m + 2].before)
    && forall i :: start <= i < |log| && i != m && i != m + 2 ==> At(log[i].after, final) == At(log[i].before, final)
  }

  /** What a publication that reports failure may have done to the final path; `tail` calls were made since. */
  ghost predicate FailedPublication(log: seq<Effect>, start: nat, tail: nat, final: Path, content: Option<seq<byte>>,
                                    overwrite: bool) {
    || LeavesFinal(log, start, final)
    || (!overwrite && content.Some? && FallbackFailed(log, start, |log| - tail - 3, final, content.value))
  }

  lemma FailedLater(log: seq<Effect>, start: nat, middle: nat, tail: nat, final: Path, content: Option<seq<byte>>,
                    overwrite: bool)
    requires start <= middle <= |log| && FailedPublication(log, middle, tail, final, content, overwrite)
    requires forall i :: start <= i < middle ==> At(log[i].after, final) == At(log[i].before, final)
    ensures FailedPublication(log, start, tail, final, content, overwrite)
  {
  }

  lemma FailedEarlier(log: seq<Effect>, start: nat, tail: nat, longer: seq<Effect>, final: Path,
                      content: Option<seq<byte>>, overwrite: bool)
    requires start <= |log| && log <= longer && LeavesFinal(longer, |log|, final)
    requires FailedPublication(log, start, tail, final, content, overwrite)
    ensures FailedPublication(longer, start, tail + |longer| - |log|, final, content, overwrite)
  {
    assert forall i :: 0 <= i < |log| ==> longer[i] == log[i];
  }

  /** Main result: a publication that failed in the fallback has left the complete file at the final path if and only
      if the final name could not be removed again. */
  lemma FailedButPublishedIff(log: seq<Effect>, start: nat, m: nat, final: Path, content: seq<byte>)
    requires FallbackFailed(log, start, m, final, content)
    requires forall j :: 0 < j < |log| ==> Follows(log, j)
    ensures log[m + 2].after == log[m + 2].before <==> At(log[m + 2].after, final) == Some(Regular(content))
    ensures log[m + 2].after != log[m + 2].before <==> At(log[m + 2].after, final) == None
  {
    assert Follows(log, m + 1) && Follows(log, m + 2);
    assert At(log[m + 2].before, final) == Some(Regular(content));
  }

  /** Main result: a file can be published although the publication reports failure. These three calls are a history
      in which every call is safe, and at its end the final path holds the complete file. */
  lemma FailureCanLeaveTheFile(final: Path, content: seq<byte>, nodes: Nodes) returns (log: seq<Effect>, after: Nodes)
    requires final != [] && At(nodes, final) == None && At(nodes, PartialOf(final)) == Some(Regular(content))
    ensures IsHistory(log, after) && SafeEffects(log, 0, final, Some(content), false)
    ensures FallbackFailed(log, 0, 0, final, content) && |log| == 3
    ensures At(after, final) == Some(Regular(content)) && At(after, PartialOf(final)) == Some(Regular(content))
  {
    after := With(nodes, final, Regular(content));
    log := [Effect(nodes, after), Effect(after, after), Effect(after, after)];
    assert forall i :: 0 < i < |log| ==> Follows(log, i);
    assert Publishes(log[0], final, content, false);
  }

  lemma TouchingPartialIsSafe(log: seq<Effect>, start: nat, final: Path, content: Option<seq<byte>>, overwrite: bool)
    requires final != [] && EffectsTouch(log, start, {PartialOf(final)})
    ensures SafeEffects(log, start, final, content, overwrite)
  {
    forall i | start <= i < |log|
      ensures OnlyTouches(log[i], {final, PartialOf(final)}) && FinalSafe(log, start, i, final, content, overwrite)
    {
      assert OnlyTouches(log[i], {PartialOf(final)});
    }
  }

  lemma TouchingPartialLeavesFinal(log: seq<Effect>, start: nat, final: Path)
    requires final != [] && EffectsTouch(log, start, {PartialOf(final)})
    ensures LeavesFinal(log, start, final)
  {
    forall i | start <= i < |log|
      ensures At(log[i].after, final) == At(log[i].before, final)
    {
      assert OnlyTouches(log[i], {PartialOf(final)});
    }
  }

  /** Writing came before the publication that failed. */
  lemma FailedAfterWriting(log: seq<Effect>, start: nat, longer: seq<Effect>, final: Path, content: Option<seq<byte>>,
                           overwrite: bool)
    requires start <= |log| && log <= longer && LeavesFinal(log, start, final)
    requires FailedPublication(longer, |log|, 0, final, content, overwrite)
    ensures FailedPublication(longer, start, 0, final, content, overwrite)
  {
    assert forall i :: 0 <= i < |log| ==> longer[i] == log[i];
    FailedLater(longer, start, |log|, 0, final, content, overwrite);
  }

  lemma SafeEffectsJoin(log: seq<Effect>, start: nat, middle: nat, longer: seq<Effect>, final: Path,
                        content: Option<seq<byte>>, overwrite: bool)
    requires final != [] && SafeEffects(log, start, final, content, overwrite)
    requires start <= middle == |log| && log <= longer && SafeEffects(longer, middle, final, content, overwrite)
    ensures SafeEffects(longer, start, final, content, overwrite)
  {
    forall i | start <= i < |longer|
      ensures OnlyTouches(longer[i], {final, PartialOf(final)}) &&
        FinalSafe(longer, start, i, final, content, overwrite)
    {
      if i < middle {
        assert forall j :: 0 <= j < middle ==> longer[j] == log[j];
        assert FinalSafe(log, start, i, final, content, overwrite);
      } else {
        assert FinalSafe(longer, middle, i, final, content, overwrite);
      }
    }
  }

  /** Main result: without overwriting, whatever stands at the final path before the first publication is never
      changed by a later call either, as long as the calls are safe and other processes only create files. */
  lemma {:induction false} ExistingFinalStays(log: seq<Effect>, start: nat, i: nat, k: nat, final: Path,
                                              content: Option<seq<byte>>)
    requires final != [] && SafeEffects(log, start, final, content, false)
    requires start <= i <= k < |log| && At(log[i].before, final).Some?
    requires forall j :: start <= j < i ==> At(log[j].after, final) == At(log[j].before, final)
    requires forall j :: 0 < j < |log| ==> Follows(log, j)
    ensures At(log[k].after, final) == At(log[i].before, final)
    ensures forall j :: start <= j <= k ==> At(log[j].after, final) == At(log[j].before, final)
    decreases k
  {
    if i < k {
      ExistingFinalStays(log, start, i, k - 1, final, content);
      assert Follows(log, k);
    }
    assert FinalSafe(log, start, k, final, content, false);
  }

  /** Main result: when overwriting, a final path that held something holds, at every moment, either that or the
      complete content; it is never absent and never partial. */
  lemma {:induction false} FinalIsOldOrComplete(log: seq<Effect>, start: nat, k: nat, final: Path,
                                                content: Option<seq<byte>>)
    requires final != [] && SafeEffects(log, start, final, content, true)
    requires start <= k < |log| && At(log[start].before, final).Some?
    requires forall j :: 0 < j < |log| ==> Follows(log, j)
    ensures At(log[k].after, final) == At(log[start].before, final)
            || (content.Some? && At(log[k].after, final) == Some(Regular(content.value)))
    decreases k
  {
    if start < k {
      FinalIsOldOrComplete(log, start, k - 1, final, content);
      assert Follows(log, k);
    }
    assert FinalSafe(log, start, k, final, content, true);
  }

  //
  // The file
  //

  /** What the constructor requires of a quiet file system. */
  predicate CanOpen(nodes: Nodes, final: Path, overwrite: bool)
    requires final != []
  {
    IsFree(nodes, final, overwrite) && IsFree(nodes, PartialOf(final), overwrite)
  }

  /** Main result: a file can be opened exactly when nothing stands at its path and at the path with ".partial" appended
      or, when overwriting, regular files only. */
  lemma CanOpenIff(nodes: Nodes, final: Path, overwrite: bool)
    requires final != []
    ensures var n := |final| - 1;
            var partial := final[..n] + [final[n] + [0x2E, 0x70, 0x61, 0x72, 0x74, 0x69, 0x61, 0x6C]];
            CanOpen(nodes, final, overwrite) <==>
              && (final !in nodes || (overwrite && nodes[final].Regular?))
              && (partial !in nodes || (overwrite && nodes[partial].Regular?))
  {
    var n := |final| - 1;
    assert PartialOf(final) == final[..n] + [final[n] + [0x2E, 0x70, 0x61, 0x72, 0x74, 0x69, 0x61, 0x6C]];
  }

  class AtomicFile {
    const fs: FileSystem
    const finalPath: Path
    const partialPath: Path
    const overwrite: bool
    var fdOpen: bool
    var committed: bool
    /** What has been written so far. */
    ghost var content: seq<byte>
    /** The files, and the calls made, when construction began. */
    ghost const origin: Nodes
    ghost const earlier: seq<Effect>

    ghost predicate Valid()
      reads this, fs
    {
      && fs.Valid() && finalPath != [] && partialPath == PartialOf(finalPath)
      && (fdOpen ==> !committed && Unpublished())
    }

    /** While the file is open, everything since construction began concerned the partial file only. */
    ghost predicate Unpublished()
      reads this, fs
    {
      && At(fs.nodes, partialPath) == Some(Regular(content))
      && earlier <= fs.log && EffectsTouch(fs.log, |earlier|, {partialPath})
      && Preserves(origin, fs.nodes, {partialPath})
      && (fs.quiet ==> fs.nodes == With(origin, partialPath, Regular(content)))
    }

    /** Takes over a partial file that was just created. */
    constructor (fs: FileSystem, finalPath: Path, overwrite: bool, ghost origin: Nodes, ghost earlier: seq<Effect>)
      requires fs.Valid() && finalPath != [] && At(fs.nodes, PartialOf(finalPath)) == Some(Regular([]))
      requires earlier <= fs.log && EffectsTouch(fs.log, |earlier|, {PartialOf(finalPath)})
      requires Preserves(origin, fs.nodes, {PartialOf(finalPath)})
      requires fs.quiet ==> fs.nodes == With(origin, PartialOf(finalPath), Regular([]))
      ensures Valid() && fdOpen && content == []
      ensures this.fs == fs && this.finalPath == finalPath && this.overwrite == overwrite
      ensures this.origin == origin && this.earlier == earlier
    {
      this.fs, this.finalPath, this.partialPath, this.overwrite := fs, finalPath, PartialOf(finalPath), overwrite;
      this.origin, this.earlier := origin, earlier;
      fdOpen, committed, content := true, false, [];
    }

    /** False stands for the exception that rejects a symlink, a non-regular file or, unless overwriting, any file. */
    static method PathIsFree(fs: FileSystem, path: Path, overwrite: bool) returns (free: bool, taken: bool)
      requires fs.Valid()
      modifies fs`nodes, fs`log
      ensures fs.Valid() && old(fs.log) <= fs.log && EffectsTouch(fs.log, |old(fs.log)|, {})
      ensures Preserves(old(fs.nodes), fs.nodes, {}) && (fs.quiet ==> fs.nodes == old(fs.nodes))
      ensures free ==> IsFree(fs.nodes, path, overwrite) && taken == At(fs.nodes, path).Some?
      ensures fs.quiet ==> free == IsFree(fs.nodes, path, overwrite)
    {
      var info := fs.Lstat(path);
      match info {
        case LookupFailed => return false, false;
        case Missing => return true, false;
        case Found(node) => return node.Regular? && overwrite, true;
      }
    }

    /** Makes way for the partial file: a stale one is removed when overwriting. */
    static method ClearPartial(fs: FileSystem, path: Path, overwrite: bool) returns (ok: bool)
      requires fs.Valid()
      modifies fs`nodes, fs`log
      ensures fs.Valid() && old(fs.log) <= fs.log && EffectsTouch(fs.log, |old(fs.log)|, {path})
      ensures Preserves(old(fs.nodes), fs.nodes, if overwrite then {path} else {}) &&
        KeepsSpecial(old(fs.nodes), fs.nodes)
      ensures ok ==> IsFree(old(fs.nodes), path, overwrite)
      ensures fs.quiet ==> ok == IsFree(old(fs.nodes), path, overwrite)
      ensures fs.quiet ==> fs.nodes == if ok then Without(old(fs.nodes), path) else old(fs.nodes)
    {
      var free, taken := PathIsFree(fs, path, overwrite);
      if !free {
        return false;
      }
      if !taken {
        return true;
      }
      ok := RemoveStale(fs, path);
    }

    /** Removes a regular file. */
    static method RemoveStale(fs: FileSystem, path: Path) returns (ok: bool)
      requires fs.Valid() && At(fs.nodes, path).Some? && At(fs.nodes, path).value.Regular?
      modifies fs`nodes, fs`log
      ensures fs.Valid() && old(fs.log) <= fs.log && EffectsTouch(fs.log, |old(fs.log)|, {path})
      ensures Preserves(old(fs.nodes), fs.nodes, {path}) && KeepsSpecial(old(fs.nodes), fs.nodes)
      ensures fs.quiet ==> ok && fs.nodes == Without(old(fs.nodes), path)
    {
      ok := fs.Unlink(path);
    }

    /** Creates the partial file. */
    static method CreatePartial(fs: FileSystem, path: Path, overwrite: bool) returns (ok: bool)
      requires fs.Valid()
      modifies fs`nodes, fs`log
      ensures fs.Valid() && old(fs.log) <= fs.log && EffectsTouch(fs.log, |old(fs.log)|, {path})
      ensures Preserves(old(fs.nodes), fs.nodes, if overwrite then {path} else {}) &&
        KeepsSpecial(old(fs.nodes), fs.nodes)
      ensures ok ==> At(fs.nodes, path) == Some(Regular([])) && IsFree(old(fs.nodes), path, overwrite)
      ensures fs.quiet && ok ==> fs.nodes == With(old(fs.nodes), path, Regular([]))
      ensures fs.quiet && HasParent(old(fs.nodes), path) ==>
                && ok == IsFree(old(fs.nodes), path, overwrite)
                && (!ok ==> fs.nodes == old(fs.nodes))
    {
      ok := ClearPartial(fs, path, overwrite);
      if ok {
        ok := fs.OpenExclusive(path);
      }
    }

    /** The source's constructor; null stands for its exceptions. */
    static method Open(fs: FileSystem, finalPath: Path, overwrite: bool) returns (file: AtomicFile?)
      requires finalPath != [] && fs.Valid()
      modifies fs
      ensures fs.Valid() && old(fs.log) <= fs.log && EffectsTouch(fs.log, |old(fs.log)|, {PartialOf(finalPath)})
      ensures Preserves(old(fs.nodes), fs.nodes, if overwrite then {PartialOf(finalPath)} else {})
      ensures KeepsSpecial(old(fs.nodes), fs.nodes)
      ensures file != null ==>
                && fresh(file) && file.Valid() && file.fdOpen && file.content == []
                && file.fs == fs && file.finalPath == finalPath && file.overwrite == overwrite
                && file.origin == old(fs.nodes) && file.earlier == old(fs.log)
                && CanOpen(old(fs.nodes), finalPath, overwrite)
      ensures fs.quiet && HasParent(old(fs.nodes), finalPath) ==>
                && (file != null <==> CanOpen(old(fs.nodes), finalPath, overwrite))
                && (file == null ==> fs.nodes == old(fs.nodes))
    {
      var partialPath := PartialOf(finalPath);
      var free, _ := PathIsFree(fs, finalPath, overwrite);
      if !free {
        return null;
      }
      var created := CreatePartial(fs, partialPath, overwrite);
      if !created {
        return null;
      }
      file := new AtomicFile(fs, finalPath, overwrite, old(fs.nodes), old(fs.log));
    }

    /** Appends all of `data`; false stands for the exception after a failed write or one without progress. */
    method Write(data: seq<byte>) returns (ok: bool)
      requires Valid() && fdOpen
      modifies fs, this`content
      ensures Valid() && fdOpen
      ensures ok ==> content == old(content) + data
      ensures fs.quiet ==> ok
    {
      var written := 0;
      while written < |data|
        invariant 0 <= written <= |data|
        invariant Valid() && fdOpen && content == old(content) + data[..written]
        decreases fs.interruptions + |data| - written
      {
        var count := fs.Append(partialPath, data[written..]);
        match count {
          case WriteInterrupted =>
          case WriteFailed => return false;
          case Wrote(n) =>
            PrefixGrows(data, written, n);
            Regroup(old(content), data[..written], data[written..][..n]);
            content := content + data[written..][..n];
            if n == 0 {
              return false;
            }
            written := written + n;
        }
      }
      return true;
    }

    /** The fallback's own effects are safe: it publishes by linking, and takes the link back when the partial name
        cannot be removed. */
    static method LinkAndUnlink(fs: FileSystem, from: Path, to: Path, ghost data: seq<byte>) returns (ok: bool)
      requires fs.Valid() && to != [] && from == PartialOf(to) && At(fs.nodes, from) == Some(Regular(data))
      modifies fs`nodes, fs`log
      ensures fs.Valid() && old(fs.log) <= fs.log
      ensures SafeEffects(fs.log, |old(fs.log)|, to, Some(data), false)
      ensures Preserves(old(fs.nodes), fs.nodes, {from})
      ensures ok ==> At(fs.nodes, to) == Some(Regular(data)) && At(fs.nodes, from) == None
      ensures !ok ==> FailedPublication(fs.log, |old(fs.log)|, 0, to, Some(data), false)
      ensures fs.quiet && HasParent(old(fs.nodes), to) ==> ok == At(old(fs.nodes), to).None?
      ensures fs.quiet && HasParent(old(fs.nodes), to) ==>
                fs.nodes == if ok then With(Without(old(fs.nodes), from), to, Regular(data)) else old(fs.nodes)
    {
      ghost var start := |fs.log|;
      var linked := fs.Link(from, to);
      if !linked {
        return false;
      }
      ghost var published := fs.log[start];
      assert Publishes(published, to, data, false);
      ok := UnlinkLinked(fs, from, to, start, data);
      assert fs.log[start] == published;
      assert !ok ==> FallbackFailed(fs.log, start, start, to, data);
    }

    /** Removes the partial name of a file that was just linked, or takes the link back. */
    static method UnlinkLinked(fs: FileSystem, from: Path, to: Path, ghost start: nat, ghost data: seq<byte>)
      returns (ok: bool)
      requires fs.Valid() && to != [] && from == PartialOf(to)
      requires At(fs.nodes, from) == Some(Regular(data)) && At(fs.nodes, to) == Some(Regular(data))
      requires start + 1 == |fs.log| && Publishes(fs.log[start], to, data, false)
      requires SafeEffects(fs.log, start, to, Some(data), false)
      modifies fs`nodes, fs`log
      ensures fs.Valid() && old(fs.log) <= fs.log
      ensures SafeEffects(fs.log, start, to, Some(data), false)
      ensures !ok ==> |fs.log| == start + 3 && fs.log[start + 1].after == fs.log[start + 1].before
      ensures !ok ==> fs.log[start + 2].after == Without(fs.log[start + 2].before, to)
                      || fs.log[start + 2].after == fs.log[start + 2].before
      ensures Preserves(old(fs.nodes), fs.nodes, {from, to})
      ensures ok ==> fs.nodes == Without(fs.Before(), from) && Preserves(old(fs.nodes), fs.nodes, {from})
      ensures fs.quiet ==> ok && fs.nodes == Without(old(fs.nodes), from)
    {
      ghost var before := fs.log;
      ok := fs.Unlink(from);
      assert fs.log[start] == before[start];
      if !ok {
        var _ := fs.Unlink(to);
        assert fs.log[start] == before[start];
      }
    }

    static method RenameWithoutReplacement(fs: FileSystem, from: Path, to: Path, ghost data: seq<byte>)
      returns (ok: bool)
      requires fs.Valid() && to != [] && from == PartialOf(to) && At(fs.nodes, from) == Some(Regular(data))
      modifies fs`nodes, fs`log
      ensures fs.Valid() && old(fs.log) <= fs.log
      ensures SafeEffects(fs.log, |old(fs.log)|, to, Some(data), false)
      ensures Preserves(old(fs.nodes), fs.nodes, {from})
      ensures ok ==> At(fs.nodes, to) == Some(Regular(data)) && At(fs.nodes, from) == None
      ensures !ok ==> FailedPublication(fs.log, |old(fs.log)|, 0, to, Some(data), false)
      ensures fs.quiet && HasParent(old(fs.nodes), to) ==> ok == At(old(fs.nodes), to).None?
      ensures fs.quiet && HasParent(old(fs.nodes), to) ==>
                fs.nodes == if ok then With(Without(old(fs.nodes), from), to, Regular(data)) else old(fs.nodes)
    {
      ghost var start := fs.log;
      var result := fs.RenameNoReplace(from, to);
      if !result.Unsupported? {
        return result.Renamed?;
      }
      ghost var middle := fs.log;
      ok := LinkAndUnlink(fs, from, to, data);
      assert fs.log[|start|] == middle[|start|];
      if !ok { FailedLater(fs.log, |start|, |middle|, 0, to, Some(data), false); }
      SafeEffectsJoin(middle, |start|, |middle|, fs.log, to, Some(data), false);
    }

    /** Gives the partial file its final name. */
    static method Publish(fs: FileSystem, from: Path, to: Path, overwrite: bool, ghost data: seq<byte>)
      returns (ok: bool)
      requires fs.Valid() && to != [] && from == PartialOf(to) && At(fs.nodes, from) == Some(Regular(data))
      modifies fs`nodes, fs`log
      ensures fs.Valid() && old(fs.log) <= fs.log
      ensures SafeEffects(fs.log, |old(fs.log)|, to, Some(data), overwrite)
      ensures Preserves(old(fs.nodes), fs.nodes, {from} + if overwrite && ok then {to} else {})
      ensures ok ==> At(fs.nodes, to) == Some(Regular(data)) && At(fs.nodes, from) == None
      ensures !ok ==> FailedPublication(fs.log, |old(fs.log)|, 0, to, Some(data), overwrite)
      ensures fs.quiet && HasParent(old(fs.nodes), to) ==>
                && ok == (if overwrite then At(old(fs.nodes), to) != Some(Directory) else At(old(fs.nodes), to) == None)
                && fs.nodes == if ok then With(Without(old(fs.nodes), from), to, Regular(data)) else old(fs.nodes)
    {
      if overwrite {
        ok := fs.Rename(from, to);
      } else {
        ok := RenameWithoutReplacement(fs, from, to, data);
      }
    }

    /** Publishes what was written; false stands for the exception when syncing, closing or renaming fails. */
    method Commit() returns (ok: bool)
      requires Valid() && (fdOpen || committed)
      modifies fs`nodes, fs`log, this`fdOpen, this`committed
      ensures Valid() && content == old(content) && ok == committed && (ok ==> !fdOpen)
      ensures old(committed) ==> fs.nodes == old(fs.nodes) && fs.log == old(fs.log)
      ensures !old(committed) ==>
                && earlier <= fs.log && SafeEffects(fs.log, |earlier|, finalPath, Some(content), overwrite)
                && Preserves(origin, fs.nodes, {partialPath} + if overwrite && ok then {finalPath} else {})
                && (ok ==> At(fs.nodes, finalPath) == Some(Regular(content)) && At(fs.nodes, partialPath) == None)
                && (!ok ==> FailedPublication(fs.log, |earlier|, 0, finalPath, Some(content), overwrite))
      ensures fs.quiet && !old(committed) && HasParent(origin, finalPath) ==>
                && ok == (if overwrite then At(origin, finalPath) != Some(Directory) else At(origin, finalPath) == None)
                && fs.nodes == if ok then With(Without(origin, partialPath), finalPath, Regular(content))
                               else With(origin, partialPath, Regular(content))
    {
      if committed {
        return true;
      }
      ghost var unpublished := fs.log;
      TouchingPartialIsSafe(fs.log, |earlier|, finalPath, Some(content), overwrite);
      TouchingPartialLeavesFinal(fs.log, |earlier|, finalPath);
      var failed := fs.Fails();
      if failed {
        return false;
      }
      fdOpen := false;
      failed := fs.Fails();
      if failed {
        return false;
      }
      WithoutWith(origin, partialPath, Regular(content));
      ok := Publish(fs, partialPath, finalPath, overwrite, content);
      committed := ok;
      if !ok { FailedAfterWriting(unpublished, |earlier|, fs.log, finalPath, Some(content), overwrite); }
      SafeEffectsJoin(unpublished, |earlier|, |unpublished|, fs.log, finalPath, Some(content), overwrite);
    }

    /** The source's destructor. */
    method Cleanup()
      requires Valid()
      modifies fs`nodes, fs`log, this`fdOpen
      ensures Valid() && !fdOpen && old(fs.log) <= fs.log
      ensures EffectsTouch(fs.log, |old(fs.log)|, {partialPath})
      ensures |fs.log| == |old(fs.log)| + if committed then 0 else 1
      ensures Preserves(old(fs.nodes), fs.nodes, {partialPath})
      ensures committed ==> fs.nodes == old(fs.nodes)
      ensures fs.quiet && !committed && (At(old(fs.nodes), partialPath).Some? ==>
                                           At(old(fs.nodes), partialPath).value.Regular?) ==>
                fs.nodes == Without(old(fs.nodes), partialPath)
    {
      fdOpen := false;
      if !committed {
        var _ := fs.Unlink(partialPath);
      }
    }
  }
}
