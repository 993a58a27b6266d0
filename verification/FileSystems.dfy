/** The file system that recovered files are written to: the system calls the program makes, each of which may fail,
    while other processes create files of their own. */
module FileSystems {
  import opened Options
  import opened LittleEndian
  import opened Names

  datatype Node = Regular(content: seq<byte>) | Directory | Symlink | Special

  type Nodes = map<Path, Node>

  function At(nodes: Nodes, path: Path): Option<Node> {
    if path in nodes then Some(nodes[path]) else None
  }

  function Without(nodes: Nodes, path: Path): (r: Nodes)
    ensures At(r, path) == None
    ensures forall p :: p != path ==> At(r, p) == At(nodes, p)
  {
    nodes - {path}
  }

  function With(nodes: Nodes, path: Path, node: Node): (r: Nodes)
    ensures At(r, path) == Some(node)
    ensures forall p :: p != path ==> At(r, p) == At(nodes, p)
  {
    nodes[path := node]
  }

  lemma WithoutWith(nodes: Nodes, path: Path, node: Node)
    ensures Without(With(nodes, path, node), path) == Without(nodes, path)
  {
  }

  /** Nothing that existed has changed, apart from these paths; files may have been created anywhere. */
  ghost predicate Preserves(before: Nodes, after: Nodes, except: set<Path>) {
    forall p :: p !in except && At(before, p).Some? ==> At(after, p) == At(before, p)
  }

  /** No directory, symlink or other special file that existed has changed. */
  ghost predicate KeepsSpecial(before: Nodes, after: Nodes) {
    forall p :: At(before, p).Some? && !At(before, p).value.Regular? ==> At(after, p) == At(before, p)
  }

  predicate HasRoot(nodes: Nodes) {
    At(nodes, []) == Some(Directory)
  }

  /** The directory a new file would stand in exists. */
  predicate HasParent(nodes: Nodes, path: Path) {
    path != [] && At(nodes, path[..|path| - 1]) == Some(Directory)
  }

  /** A path that can be given to a file of ours. */
  predicate IsFree(nodes: Nodes, path: Path, overwrite: bool) {
    At(nodes, path).None? || (overwrite && At(nodes, path).value.Regular?)
  }

  /** What one call of ours did to the files. */
  datatype Effect = Effect(before: Nodes, after: Nodes)

  /** The call changed nothing outside these paths. */
  ghost predicate OnlyTouches(e: Effect, paths: set<Path>) {
    forall p :: p !in paths ==> At(e.after, p) == At(e.before, p)
  }

  /** Between two calls, other processes may only have created files. */
  ghost predicate Follows(log: seq<Effect>, i: nat)
    requires 0 < i < |log|
  {
    Preserves(log[i - 1].after, log[i].before, {})
  }

  ghost predicate IsHistory(log: seq<Effect>, nodes: Nodes) {
    && (log != [] ==> log[|log| - 1].after == nodes)
    && forall i :: 0 < i < |log| ==> Follows(log, i)
  }

  lemma HistoryGrows(log: seq<Effect>, nodes: Nodes, e: Effect)
    requires IsHistory(log, nodes) && Preserves(nodes, e.before, {})
    ensures IsHistory(log + [e], e.after)
  {
    var longer := log + [e];
    forall i | 0 < i < |longer|
      ensures Follows(longer, i)
    {
      assert i < |log| ==> Follows(log, i);
    }
  }

  datatype Lookup = Found(node: Node) | Missing | LookupFailed
  datatype WriteResult = Wrote(n: nat) | WriteInterrupted | WriteFailed
  datatype RenameResult = Renamed | Unsupported | RenameFailed
  datatype MakeResult = Made | AlreadyExists | MakeFailed

  class FileSystem {
    /** No call fails for a reason outside the files themselves, and no other process creates files. */
    const quiet: bool
    var nodes: Nodes
    /** How many more writes signals will interrupt. */
    var interruptions: nat
    /** The effect of every call made so far. */
    ghost var log: seq<Effect>

    constructor (quiet: bool, nodes: Nodes, interruptions: nat)
      requires HasRoot(nodes)
      ensures Valid() && this.quiet == quiet && this.nodes == nodes && log == []
    {
      this.quiet, this.nodes, this.interruptions, log := quiet, nodes, interruptions, [];
    }

    ghost predicate Valid()
      reads this
    {
      IsHistory(log, nodes) && HasRoot(nodes)
    }

    /** The files as the last call found them. */
    ghost function Before(): Nodes
      requires log != []
      reads this
    {
      log[|log| - 1].before
    }

    /** One call was made, after other processes may have created files. */
    ghost predicate Stepped(nodes0: Nodes, log0: seq<Effect>)
      reads this
    {
      && Valid()
      && |log| == |log0| + 1 && log0 <= log
      && log[|log0|].after == nodes
      && Preserves(nodes0, log[|log0|].before, {})
      && (quiet ==> log[|log0|].before == nodes0)
    }

    /** Other processes may create files where there are none. */
    method Others()
      modifies this`nodes
      ensures Preserves(old(nodes), nodes, {}) && (quiet ==> nodes == old(nodes))
    {
      if !quiet {
        var others: Nodes := *;
        nodes := others + nodes;
      }
    }

    ghost method Record(before: Nodes)
      requires HasRoot(nodes) && exists was :: IsHistory(log, was) && Preserves(was, before, {})
      modifies this`log
      ensures log == old(log) + [Effect(before, nodes)] && Valid()
    {
      var was :| IsHistory(log, was) && Preserves(was, before, {});
      HistoryGrows(log, was, Effect(before, nodes));
      log := log + [Effect(before, nodes)];
    }

    method Fails() returns (fails: bool)
      ensures quiet ==> !fails
    {
      fails := *;
      fails := fails && !quiet;
    }

    method Lstat(path: Path) returns (r: Lookup)
      requires Valid()
      modifies this`nodes, this`log
      ensures Stepped(old(nodes), old(log)) && nodes == Before()
      ensures r.Found? ==> At(nodes, path) == Some(r.node)
      ensures r.Missing? ==> At(nodes, path) == None
      ensures r.LookupFailed? ==> !quiet
    {
      Others();
      Record(nodes);
      var fails := Fails();
      return if fails then LookupFailed else if path in nodes then Found(nodes[path]) else Missing;
    }

    /** Creates a file for writing where there is none. */
    method OpenExclusive(path: Path) returns (ok: bool)
      requires Valid()
      modifies this`nodes, this`log
      ensures Stepped(old(nodes), old(log))
      ensures nodes == if ok then With(Before(), path, Regular([])) else Before()
      ensures ok ==> At(Before(), path) == None
      ensures quiet && HasParent(Before(), path) ==> ok == At(Before(), path).None?
    {
      Others();
      ghost var before := nodes;
      var fails := Fails();
      ok := !fails && path !in nodes && HasParent(nodes, path);
      if ok {
        nodes := With(nodes, path, Regular([]));
      }
      Record(before);
    }

    /** Appends to an open file; it may write less than was asked for. */
    method Append(path: Path, data: seq<byte>) returns (r: WriteResult)
      requires At(nodes, path).Some? && At(nodes, path).value.Regular?
      requires Valid()
      modifies this`nodes, this`log, this`interruptions
      ensures Stepped(old(nodes), old(log))
      ensures interruptions <= old(interruptions)
      ensures r.WriteInterrupted? ==> interruptions < old(interruptions)
      ensures r.Wrote? ==> r.n <= |data|
      ensures nodes == if r.Wrote? then With(Before(), path, Regular(old(At(nodes, path)).value.content + data[..r.n]))
                       else Before()
      ensures quiet && data != [] ==> r.WriteInterrupted? || (r.Wrote? && 0 < r.n)
    {
      Others();
      ghost var before := nodes;
      var interrupted: bool := *;
      var fails := Fails();
      var n: int := *;
      if interrupted && interruptions > 0 {
        interruptions := interruptions - 1;
        r := WriteInterrupted;
      } else if fails {
        r := WriteFailed;
      } else {
        n := if n > |data| then |data| else if n <= 0 then (if quiet && data != [] then 1 else 0) else n;
        nodes := With(nodes, path, Regular(nodes[path].content + data[..n]));
        r := Wrote(n);
      }
      Record(before);
    }

    /** Moves a file, replacing what is there unless it is a directory. */
    method Rename(from: Path, to: Path) returns (ok: bool)
      requires from != to && At(nodes, from).Some? && At(nodes, from).value.Regular?
      requires Valid()
      modifies this`nodes, this`log
      ensures Stepped(old(nodes), old(log))
      ensures nodes == if ok then With(Without(Before(), from), to, old(At(nodes, from)).value) else Before()
      ensures quiet && HasParent(Before(), to) ==> ok == (At(Before(), to) != Some(Directory))
    {
      Others();
      ghost var before := nodes;
      var fails := Fails();
      ok := !fails && At(nodes, to) != Some(Directory) && HasParent(nodes, to);
      if ok {
        nodes := With(Without(nodes, from), to, nodes[from]);
      }
      Record(before);
    }

    /** Moves a file to where there is none; not every system supports this. */
    method RenameNoReplace(from: Path, to: Path) returns (r: RenameResult)
      requires from != to && At(nodes, from).Some? && At(nodes, from).value.Regular?
      requires Valid()
      modifies this`nodes, this`log
      ensures Stepped(old(nodes), old(log))
      ensures nodes == if r.Renamed? then With(Without(Before(), from), to, old(At(nodes, from)).value) else Before()
      ensures r.Renamed? ==> At(Before(), to) == None
      ensures quiet && HasParent(Before(), to) && !r.Unsupported? ==> r.Renamed? == At(Before(), to).None?
    {
      Others();
      ghost var before := nodes;
      var supported: bool := *;
      var fails := Fails();
      if !supported {
        r := Unsupported;
      } else if fails || to in nodes || !HasParent(nodes, to) {
        r := RenameFailed;
      } else {
        nodes := With(Without(nodes, from), to, nodes[from]);
        r := Renamed;
      }
      Record(before);
    }

    /** Gives a file a second name, where there is none. */
    method Link(from: Path, to: Path) returns (ok: bool)
      requires from != to && At(nodes, from).Some? && At(nodes, from).value.Regular?
      requires Valid()
      modifies this`nodes, this`log
      ensures Stepped(old(nodes), old(log))
      ensures nodes == if ok then With(Before(), to, old(At(nodes, from)).value) else Before()
      ensures ok ==> At(Before(), to) == None
      ensures quiet && HasParent(Before(), to) ==> ok == At(Before(), to).None?
    {
      Others();
      ghost var before := nodes;
      var fails := Fails();
      ok := !fails && to !in nodes && HasParent(nodes, to);
      if ok {
        nodes := With(nodes, to, nodes[from]);
      }
      Record(before);
    }

    method Unlink(path: Path) returns (ok: bool)
      requires Valid()
      modifies this`nodes, this`log
      ensures Stepped(old(nodes), old(log))
      ensures nodes == if ok then Without(Before(), path) else Before()
      ensures quiet ==> ok == (At(Before(), path).Some? && At(Before(), path).value != Directory)
    {
      Others();
      ghost var before := nodes;
      var fails := Fails();
      ok := !fails && path in nodes && nodes[path] != Directory;
      if ok {
        nodes := Without(nodes, path);
      }
      Record(before);
    }

    method Mkdir(path: Path) returns (r: MakeResult)
      requires Valid()
      modifies this`nodes, this`log
      ensures Stepped(old(nodes), old(log))
      ensures nodes == if r.Made? then With(Before(), path, Directory) else Before()
      ensures r.Made? ==> At(Before(), path) == None
      ensures quiet && HasParent(Before(), path) ==> r == if At(Before(), path).None? then Made else AlreadyExists
    {
      Others();
      ghost var before := nodes;
      var fails := Fails();
      if fails || !HasParent(nodes, path) {
        r := MakeFailed;
      } else if path in nodes {
        r := AlreadyExists;
      } else {
        nodes := With(nodes, path, Directory);
        r := Made;
      }
      Record(before);
    }
  }
}
