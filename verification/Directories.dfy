/** Making the directories of an output path. */
module Directories {
  import opened Options
  import opened Names
  import opened FileSystems

  //
  // The exact effect on a quiet file system
  //

  /** Every component on the way to `p`, and `p` itself, is a directory or can become one. */
  ghost predicate PathFree(nodes: Nodes, p: Path) {
    forall k :: 0 < k <= |p| ==> At(nodes, p[..k]).None? || At(nodes, p[..k]) == Some(Directory)
  }

  /** Making `directory` makes `p`. */
  ghost predicate IsMade(nodes: Nodes, directory: Path, p: Path) {
    p != [] && p <= directory && PathFree(nodes, p) && At(nodes, p).None?
  }

  /** `r` is what is left of `nodes` by making `directory` and its ancestors, up to the first component that is
      something else. */
  ghost predicate IsMadePath(nodes: Nodes, directory: Path, r: Nodes) {
    forall p :: At(r, p) == if IsMade(nodes, directory, p) then Some(Directory) else At(nodes, p)
  }

  lemma MadePathExists(nodes: Nodes, directory: Path) returns (r: Nodes)
    ensures IsMadePath(nodes, directory, r)
  {
    var made := set k | 0 < k <= |directory| && IsMade(nodes, directory, directory[..k]) :: directory[..k];
    forall p | IsMade(nodes, directory, p)
      ensures p in made
    {
      assert p == directory[..|p|];
    }
    r := nodes + map p | p in made :: Directory;
  }

  /** The files after making `directory`. */
  ghost function MadePath(nodes: Nodes, directory: Path): (r: Nodes)
    ensures forall p :: At(r, p) == if IsMade(nodes, directory, p) then Some(Directory) else At(nodes, p)
  {
    assert exists r :: IsMadePath(nodes, directory, r) by { var made := MadePathExists(nodes, directory); }
    var r :| IsMadePath(nodes, directory, r);
    r
  }

  lemma SameNodes(a: Nodes, b: Nodes)
    requires forall p :: At(a, p) == At(b, p)
    ensures a == b
  {
    assert forall p :: p in a <==> At(a, p).Some?;
    assert forall p :: p in b <==> At(b, p).Some?;
    assert forall p :: p in a ==> a[p] == At(a, p).value;
    assert forall p :: p in b ==> b[p] == At(b, p).value;
  }

  lemma PathFreeStep(nodes: Nodes, directory: Path, k: nat)
    requires 0 < k <= |directory|
    ensures PathFree(nodes, directory[..k]) <==>
            PathFree(nodes, directory[..k - 1])
            && (At(nodes, directory[..k]).None? || At(nodes, directory[..k]) == Some(Directory))
  {
    var p, q := directory[..k], directory[..k - 1];
    assert forall j :: 0 < j < k ==> p[..j] == q[..j] == directory[..j];
    assert p[..k] == p;
  }

  lemma PathFreePrefix(nodes: Nodes, p: Path, q: Path)
    requires PathFree(nodes, p) && q <= p
    ensures PathFree(nodes, q)
  {
    assert forall k :: 0 < k <= |q| ==> q[..k] == p[..k];
  }

  /** Making nothing. */
  lemma MadeNothing(nodes: Nodes)
    ensures MadePath(nodes, []) == nodes
  {
    SameNodes(MadePath(nodes, []), nodes);
  }

  /** One more component. */
  lemma MadeStep(nodes: Nodes, directory: Path, k: nat)
    requires 0 < k <= |directory| && PathFree(nodes, directory[..k])
    ensures MadePath(nodes, directory[..k]) == With(MadePath(nodes, directory[..k - 1]), directory[..k], Directory)
  {
    var p, q := directory[..k], directory[..k - 1];
    forall x
      ensures At(MadePath(nodes, p), x) == At(With(MadePath(nodes, q), p, Directory), x)
    {
      if x != p {
        assert x <= p <==> x <= q by {
          assert q == p[..k - 1];
          if x <= p { assert x == p[..|x|] == q[..|x|]; }
        }
      } else {
        assert p[..k] == p;
      }
    }
    SameNodes(MadePath(nodes, p), With(MadePath(nodes, q), p, Directory));
  }

  /** Nothing is made beyond a component that is in the way. */
  lemma MadeUpToObstacle(nodes: Nodes, directory: Path, k: nat)
    requires 0 < k <= |directory| && !PathFree(nodes, directory[..k])
    ensures !PathFree(nodes, directory) && MadePath(nodes, directory) == MadePath(nodes, directory[..k - 1])
  {
    var q := directory[..k - 1];
    if PathFree(nodes, directory) { PathFreePrefix(nodes, directory, directory[..k]); }
    forall x
      ensures IsMade(nodes, directory, x) <==> IsMade(nodes, q, x)
    {
      if IsMade(nodes, directory, x) {
        if |x| >= k {
          assert directory[..k] <= x;
          PathFreePrefix(nodes, x, directory[..k]);
        }
        assert x == directory[..|x|] == q[..|x|];
      }
      if x <= q { assert x <= directory; }
    }
    SameNodes(MadePath(nodes, directory), MadePath(nodes, q));
  }

  //
  // The source's procedure
  //

  /** The call made `directory` or a directory on the way to it, and nothing else. */
  ghost predicate OnlyMakesDirectories(e: Effect, directory: Path) {
    forall p :: At(e.after, p) != At(e.before, p) ==>
                  p <= directory && At(e.before, p) == None && At(e.after, p) == Some(Directory)
  }

  ghost predicate EffectsMakeDirectories(log: seq<Effect>, start: nat, directory: Path) {
    forall i :: start <= i < |log| ==> OnlyMakesDirectories(log[i], directory)
  }

  lemma MoreDirectories(log: seq<Effect>, start: nat, longer: seq<Effect>, current: Path, directory: Path)
    requires start <= |log| && log <= longer && current <= directory
    requires EffectsMakeDirectories(log, start, directory) && EffectsMakeDirectories(longer, |log|, current)
    ensures EffectsMakeDirectories(longer, start, directory)
  {
    forall i | start <= i < |longer|
      ensures OnlyMakesDirectories(longer[i], directory)
    {
      if i < |log| {
        assert longer[i] == log[i];
      } else {
        assert OnlyMakesDirectories(longer[i], current);
      }
    }
  }

  /** One component of the directory's path; false stands for an exception. */
  method EnsureComponent(fs: FileSystem, current: Path) returns (ok: bool)
    requires fs.Valid()
    modifies fs`nodes, fs`log
    ensures fs.Valid() && old(fs.log) <= fs.log && EffectsMakeDirectories(fs.log, |old(fs.log)|, current)
    ensures Preserves(old(fs.nodes), fs.nodes, {})
    ensures ok ==> At(fs.nodes, current) == Some(Directory)
    ensures fs.quiet && HasParent(old(fs.nodes), current) ==>
              && ok == (At(old(fs.nodes), current).None? || At(old(fs.nodes), current) == Some(Directory))
              && fs.nodes == if ok then With(old(fs.nodes), current, Directory) else old(fs.nodes)
  {
    var info := fs.Lstat(current);
    if info.LookupFailed? {
      return false;
    }
    if info.Missing? {
      var made := fs.Mkdir(current);
      if made.MakeFailed? {
        return false;
      }
      info := fs.Lstat(current);
      if !info.Found? {
        return false;
      }
    }
    if info.node != Directory {
      return false;
    }
    var rejected := fs.Fails();
    return !rejected;
  }

  /** Makes a directory and its ancestors, refusing symlinks on the way; false stands for an exception. */
  method EnsureSafeDirectory(fs: FileSystem, directory: Path) returns (ok: bool)
    requires fs.Valid()
    modifies fs`nodes, fs`log
    ensures fs.Valid() && old(fs.log) <= fs.log && EffectsMakeDirectories(fs.log, |old(fs.log)|, directory)
    ensures Preserves(old(fs.nodes), fs.nodes, {})
    ensures ok ==> forall k :: 0 <= k <= |directory| ==> At(fs.nodes, directory[..k]) == Some(Directory)
    ensures fs.quiet ==> ok == PathFree(old(fs.nodes), directory)
    ensures fs.quiet ==> fs.nodes == MadePath(old(fs.nodes), directory)
  {
    var k := 1;
    MadeNothing(fs.nodes);
    assert directory[..0] == [];
    while k <= |directory|
      invariant 1 <= k <= |directory| + 1
      invariant fs.Valid() && old(fs.log) <= fs.log && EffectsMakeDirectories(fs.log, |old(fs.log)|, directory)
      invariant Preserves(old(fs.nodes), fs.nodes, {})
      invariant forall j :: 0 <= j < k ==> At(fs.nodes, directory[..j]) == Some(Directory)
      invariant fs.quiet ==> PathFree(old(fs.nodes), directory[..k - 1])
      invariant fs.quiet ==> fs.nodes == MadePath(old(fs.nodes), directory[..k - 1])
    {
      ok := EnsurePrefix(fs, directory, k, old(fs.nodes), old(fs.log));
      if !ok {
        return;
      }
      k := k + 1;
    }
    assert directory[..|directory|] == directory;
    return true;
  }

  /** The body of the loop of `EnsureSafeDirectory`, for the first `k` components. */
  method EnsurePrefix(fs: FileSystem, directory: Path, k: nat, ghost first: Nodes, ghost earlier: seq<Effect>)
    returns (ok: bool)
    requires fs.Valid() && 0 < k <= |directory| && At(fs.nodes, directory[..k - 1]) == Some(Directory)
    requires earlier <= fs.log && EffectsMakeDirectories(fs.log, |earlier|, directory)
    requires fs.quiet ==> PathFree(first, directory[..k - 1]) && fs.nodes == MadePath(first, directory[..k - 1])
    modifies fs`nodes, fs`log
    ensures fs.Valid() && earlier <= fs.log && EffectsMakeDirectories(fs.log, |earlier|, directory)
    ensures Preserves(old(fs.nodes), fs.nodes, {}) && (ok ==> At(fs.nodes, directory[..k]) == Some(Directory))
    ensures fs.quiet && ok ==> PathFree(first, directory[..k]) && fs.nodes == MadePath(first, directory[..k])
    ensures fs.quiet && !ok ==> !PathFree(first, directory) && fs.nodes == MadePath(first, directory)
  {
    var current := directory[..k];
    assert current[..k - 1] == directory[..k - 1];
    ghost var before, log := fs.nodes, fs.log;
    ok := EnsureComponent(fs, current);
    MoreDirectories(log, |earlier|, fs.log, current, directory);
    if fs.quiet {
      ComponentStep(first, before, directory, k, ok);
    }
  }

  lemma ComponentStep(first: Nodes, before: Nodes, directory: Path, k: nat, ok: bool)
    requires 0 < k <= |directory| && PathFree(first, directory[..k - 1])
    requires before == MadePath(first, directory[..k - 1])
    requires ok == (At(before, directory[..k]).None? || At(before, directory[..k]) == Some(Directory))
    ensures ok == PathFree(first, directory[..k])
    ensures ok ==> With(before, directory[..k], Directory) == MadePath(first, directory[..k])
    ensures !ok ==> !PathFree(first, directory) && before == MadePath(first, directory)
  {
    PathFreeStep(first, directory, k);
    assert !(directory[..k] <= directory[..k - 1]);
    if ok {
      MadeStep(first, directory, k);
    } else {
      MadeUpToObstacle(first, directory, k);
    }
  }
}
