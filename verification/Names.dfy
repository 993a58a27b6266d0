/** Output names: sanitising, joining into paths, and the case-folded collision check. */
module Names {
  import opened Options
  import opened Sequences
  import opened LittleEndian
  import opened Utf

  const SLASH: byte := 0x2F
  const BACKSLASH: byte := 0x5C
  const UNDERSCORE: byte := 0x5F
  const DOT: byte := 0x2E

  type Name = seq<byte>

  /** A relative path, as the list of its components. */
  type Path = seq<Name>

  //
  // Sanitising
  //

  function SanitizedByte(b: byte): byte {
    if b == SLASH || b == BACKSLASH || b < 0x20 then UNDERSCORE else b
  }

  function Replaced(name: Name): (r: Name)
    ensures |r| == |name| && forall i :: 0 <= i < |name| ==> r[i] == SanitizedByte(name[i])
  {
    seq(|name|, i requires 0 <= i < |name| => SanitizedByte(name[i]))
  }

  /** The name of the directory itself. */
  predicate IsDot(name: Name) {
    |name| == 1 && name[0] == DOT
  }

  /** The name of the directory above. */
  predicate IsDotDot(name: Name) {
    |name| == 2 && name[0] == DOT && name[1] == DOT
  }

  function Sanitized(name: Name): Name {
    var r := Replaced(name);
    if r == [] || IsDot(r) || IsDotDot(r) then [UNDERSCORE] else r
  }

  /** One component of a path, other than "." and "..". */
  predicate IsComponent(name: Name) {
    name != [] && !IsDot(name) && !IsDotDot(name) && SLASH !in name
  }

  /** Main result: slashes, backslashes and control bytes become underscores, and so do the empty name, "." and "..". */
  lemma SanitizedBytes(name: Name)
    ensures var r := Sanitized(name);
            if |name| == 0 || name == [0x2E] || name == [0x2E, 0x2E] then r == [0x5F]
            else
              && |r| == |name|
              && forall i :: 0 <= i < |name| ==>
                   r[i] == if name[i] == 0x2F || name[i] == 0x5C || name[i] < 0x20 then 0x5F else name[i]
  {
    var r := Replaced(name);
    assert IsDot(r) <==> IsDot(name);
    assert IsDotDot(r) <==> IsDotDot(name);
  }

  method SanitizeName(name: Name) returns (result: Name)
    ensures result == Sanitized(name)
  {
    result := name;
    for k := 0 to |name|
      invariant |result| == |name|
      invariant forall i :: 0 <= i < k ==> result[i] == SanitizedByte(name[i])
      invariant forall i :: k <= i < |name| ==> result[i] == name[i]
    {
      var character := result[k];
      if character == SLASH || character == BACKSLASH || character < 0x20 {
        result := result[k := UNDERSCORE];
      }
    }
    assert result == Replaced(name);
    if result == [] || IsDot(result) || IsDotDot(result) {
      return [UNDERSCORE];
    }
  }

  /** Main result: a sanitised name is always one component, free of separators and control bytes. */
  lemma SanitizedIsComponent(name: Name)
    ensures IsComponent(Sanitized(name))
    ensures forall b :: b in Sanitized(name) ==> b != BACKSLASH && b >= 0x20
  {
  }

  /** Main result: sanitising twice changes nothing more; a name is unchanged exactly when it was clean. */
  lemma SanitizingIsIdempotent(name: Name)
    ensures Sanitized(Sanitized(name)) == Sanitized(name)
    ensures Sanitized(name) == name <==>
            IsComponent(name) && forall b :: b in name ==> b != BACKSLASH && b >= 0x20
  {
    var once := Sanitized(name);
    assert Replaced(once) == once;
    if IsComponent(name) && forall b :: b in name ==> b != BACKSLASH && b >= 0x20 {
      forall i | 0 <= i < |name|
        ensures Replaced(name)[i] == name[i]
      {
        assert name[i] in name;
      }
      assert Replaced(name) == name;
    } else if Sanitized(name) == name {
      SanitizedIsComponent(name);
    }
  }

  function SanitizedScalar(cp: scalar): scalar {
    if cp == 0x2F || cp == 0x5C || cp < 0x20 then 0x5F else cp
  }

  function SanitizedScalars(cps: seq<scalar>): seq<scalar> {
    if cps == [] then [] else [SanitizedScalar(cps[0])] + SanitizedScalars(cps[1..])
  }

  lemma ReplacedCharacter(s: seq<byte>)
    requires CharLength(s) != 0
    ensures CharLength(Replaced(s)) == CharLength(s)
    ensures CodePoint(Replaced(s), CharLength(s)) == SanitizedScalar(CodePoint(s, CharLength(s)))
  {
    var n := CharLength(s);
    assert forall i :: 0 <= i < n && s[i] >= 0x80 ==> Replaced(s)[i] == s[i];
  }

  /** Replacing bytes replaces whole characters: well-formed text stays well-formed. */
  lemma {:induction false} ReplacedText(s: seq<byte>)
    requires Utf8Decode(s).Some?
    ensures Utf8Decode(Replaced(s)) == Some(SanitizedScalars(Utf8Decode(s).value))
    decreases |s|
  {
    if s != [] {
      var n := CharLength(s);
      ReplacedCharacter(s);
      ReplacedText(s[n..]);
      assert Replaced(s)[n..] == Replaced(s[n..]);
      var cps := Utf8Decode(s).value;
      assert cps[1..] == Utf8Decode(s[n..]).value;
    }
  }

  /** Main result: the sanitised form of a converted name is well-formed UTF-8. */
  lemma SanitizedNameIsText(data: seq<byte>)
    ensures Utf8Decode(Sanitized(Utf8Name(data))).Some?
  {
    ConversionKeepsMeaning(data);
    ReplacedText(Utf8Name(data));
    var underscore: seq<byte> := [UNDERSCORE];
    assert CharLength(underscore) == 1 && underscore[1..] == [];
    assert Utf8Decode(underscore).Some?;
  }

  //
  // Paths as strings
  //

  predicate IsPath(path: Path) {
    forall name :: name in path ==> IsComponent(name)
  }

  /** The generic form of a path: its components separated by slashes. */
  function Joined(path: Path): seq<byte> {
    if path == [] then []
    else if |path| == 1 then path[0]
    else path[0] + [SLASH] + Joined(path[1..])
  }

  /** The pieces between slashes; always at least one. */
  function Split(s: seq<byte>): (parts: seq<Name>)
    ensures parts != []
  {
    if s == [] then [[]]
    else
      var rest := Split(s[1..]);
      if s[0] == SLASH then [[]] + rest else [[s[0]] + rest[0]] + rest[1..]
  }

  /** What is left of the pieces of a path by normalisation, and whether the result ends in a separator. */
  function NormalParts(parts: seq<Name>, rooted: bool, kept: Path, trailing: bool): (Path, bool)
    decreases |parts|
  {
    if parts == [] then (kept, trailing)
    else
      var part, rest := parts[0], parts[1..];
      if part == [] || IsDot(part) then NormalParts(rest, rooted, kept, true)
      else if !IsDotDot(part) then NormalParts(rest, rooted, kept + [part], false)
      else if kept != [] && !IsDotDot(kept[|kept| - 1]) then NormalParts(rest, rooted, kept[..|kept| - 1], true)
      else if rooted then NormalParts(rest, rooted, kept, true)
      else NormalParts(rest, rooted, kept + [part], false)
  }

  /** The library's lexical normalisation of a path string. */
  function LexicallyNormal(s: seq<byte>): seq<byte> {
    if s == [] then []
    else
      var rooted := s[0] == SLASH;
      var (kept, trailing) := NormalParts(Split(s), rooted, [], false);
      var path := if rooted then [SLASH] + Joined(kept) else Joined(kept);
      var text := if trailing && kept != [] && !IsDotDot(kept[|kept| - 1]) then path + [SLASH] else path;
      if text == [] then [DOT] else text
  }

  function FoldedByte(b: byte): byte {
    if 0x41 <= b <= 0x5A then b + 0x20 else b
  }

  function Folded(s: seq<byte>): (r: seq<byte>)
    ensures |r| == |s| && forall i {:trigger r[i]} :: 0 <= i < |s| ==> r[i] == FoldedByte(s[i])
  {
    seq(|s|, i requires 0 <= i < |s| => FoldedByte(s[i]))
  }

  function FoldedPath(path: Path): (r: Path)
    ensures |r| == |path| && forall i :: 0 <= i < |path| ==> r[i] == Folded(path[i])
  {
    seq(|path|, i requires 0 <= i < |path| => Folded(path[i]))
  }

  function CollisionKey(path: Path): seq<byte> {
    Folded(LexicallyNormal(Joined(path)))
  }

  /** Splitting off the first component. */
  lemma {:induction false} SplitFirst(name: Name, rest: seq<byte>)
    requires SLASH !in name
    ensures Split(name + [SLASH] + rest) == [name] + Split(rest)
    decreases |name|
  {
    var s := name + [SLASH] + rest;
    if name == [] {
      assert s[1..] == rest;
    } else {
      assert s[1..] == name[1..] + [SLASH] + rest;
      SplitFirst(name[1..], rest);
      assert [name[0]] + name[1..] == name;
      assert ([name[1..]] + Split(rest))[1..] == Split(rest);
    }
  }

  lemma {:induction false} SplitOne(name: Name)
    requires SLASH !in name
    ensures Split(name) == [name]
  {
    if name != [] {
      SplitOne(name[1..]);
      assert [name[0]] + name[1..] == name;
    }
  }

  /** Splitting undoes joining. */
  lemma {:induction false} SplitJoined(path: Path)
    requires path != [] && forall name :: name in path ==> SLASH !in name
    ensures Split(Joined(path)) == path
    decreases |path|
  {
    if |path| == 1 {
      SplitOne(path[0]);
      assert path == [path[0]];
    } else {
      SplitFirst(path[0], Joined(path[1..]));
      SplitJoined(path[1..]);
      assert [path[0]] + path[1..] == path;
    }
  }

  lemma {:induction false} NormalOfComponents(parts: Path, rooted: bool, kept: Path, trailing: bool)
    requires IsPath(parts)
    ensures NormalParts(parts, rooted, kept, trailing) == (kept + parts, if parts == [] then trailing else false)
    decreases |parts|
  {
    if parts == [] {
      NothingAdded(kept);
    } else {
      assert IsComponent(parts[0]);
      NormalOfComponents(parts[1..], rooted, kept + [parts[0]], false);
      assert kept + [parts[0]] + parts[1..] == kept + parts;
    }
  }

  lemma JoinedStart(path: Path)
    requires path != [] && IsPath(path)
    ensures Joined(path) != [] && Joined(path)[0] != SLASH
  {
    assert IsComponent(path[0]);
    assert Joined(path)[0] == path[0][0] && path[0][0] in path[0];
  }

  /** Main result: paths of components are already normal. */
  lemma NormalisationIsIdentity(path: Path)
    requires IsPath(path)
    ensures LexicallyNormal(Joined(path)) == Joined(path)
  {
    if path != [] {
      JoinedStart(path);
      SplitJoined(path);
      NormalOfComponents(path, false, [], false);
      NothingAdded(path);
    }
  }

  lemma FoldedConcat(a: seq<byte>, b: seq<byte>)
    ensures Folded(a + b) == Folded(a) + Folded(b)
  {
  }

  lemma {:induction false} FoldedJoined(path: Path)
    ensures Folded(Joined(path)) == Joined(FoldedPath(path))
    decreases |path|
  {
    if |path| > 1 {
      var rest := path[1..];
      FoldedConcat(path[0] + [SLASH], Joined(rest));
      FoldedConcat(path[0], [SLASH]);
      FoldedJoined(rest);
      assert FoldedPath(path)[1..] == FoldedPath(rest);
      assert Folded([SLASH]) == [SLASH];
    }
  }

  lemma FoldedHasNoSlash(name: Name)
    requires SLASH !in name
    ensures SLASH !in Folded(name)
  {
    forall i | 0 <= i < |name|
      ensures Folded(name)[i] != SLASH
    {
      assert name[i] in name;
    }
  }

  /** Main result: the collision key of a path determines its list of case-folded components. */
  lemma KeyDeterminesFoldedPath(first: Path, second: Path)
    requires IsPath(first) && IsPath(second)
    ensures CollisionKey(first) == CollisionKey(second) <==> FoldedPath(first) == FoldedPath(second)
  {
    KeyIsJoinedFold(first);
    KeyIsJoinedFold(second);
    if Joined(FoldedPath(first)) == Joined(FoldedPath(second)) {
      FoldedPathSplits(first);
      FoldedPathSplits(second);
    }
  }

  /** The bytes are equal, or one letter of ASCII in its two cases. */
  predicate SameButCase(a: byte, b: byte) {
    a == b || (0x41 <= a <= 0x5A && b == a + 0x20) || (0x41 <= b <= 0x5A && a == b + 0x20)
  }

  /** The paths have equally many components, and the components are equal but for the case of ASCII letters. */
  predicate SamePathButCase(p: Path, q: Path) {
    |p| == |q| && forall i :: 0 <= i < |p| ==> SameNameButCase(p[i], q[i])
  }

  predicate SameNameButCase(a: Name, b: Name) {
    |a| == |b| && forall k :: 0 <= k < |a| ==> SameButCase(a[k], b[k])
  }

  lemma FoldedNamesIff(a: Name, b: Name)
    ensures Folded(a) == Folded(b) <==> SameNameButCase(a, b)
  {
    if |a| == |b| {
      forall k | 0 <= k < |a|
        ensures Folded(a)[k] == Folded(b)[k] <==> SameButCase(a[k], b[k])
      {
      }
    }
  }

  /** Main result: two paths collide if and only if they are equal but for the case of ASCII letters. */
  lemma KeysCollideIff(first: Path, second: Path)
    requires IsPath(first) && IsPath(second)
    ensures CollisionKey(first) == CollisionKey(second) <==> SamePathButCase(first, second)
  {
    KeyDeterminesFoldedPath(first, second);
    if |first| == |second| {
      forall i | 0 <= i < |first|
        ensures FoldedPath(first)[i] == FoldedPath(second)[i] <==> SameNameButCase(first[i], second[i])
      {
        FoldedNamesIff(first[i], second[i]);
      }
    }
  }

  lemma KeyIsJoinedFold(path: Path)
    requires IsPath(path)
    ensures CollisionKey(path) == Joined(FoldedPath(path))
  {
    NormalisationIsIdentity(path);
    FoldedJoined(path);
  }

  /** A folded path can be read off its joined form. */
  lemma FoldedPathSplits(path: Path)
    requires IsPath(path)
    ensures var s := Joined(FoldedPath(path));
            (s == [] <==> path == []) && (path != [] ==> Split(s) == FoldedPath(path))
  {
    if path != [] {
      forall name | name in FoldedPath(path)
        ensures SLASH !in name
      {
        var i :| 0 <= i < |path| && FoldedPath(path)[i] == name;
        assert path[i] in path;
        FoldedHasNoSlash(path[i]);
      }
      assert IsComponent(path[0]);
      SplitJoined(FoldedPath(path));
    }
  }

  //
  // The collision tracker
  //

  datatype Entry = Entry(originalName: Name, recordId: nat, path: Path)

  method ComputeCollisionKey(path: Path) returns (key: seq<byte>)
    ensures key == CollisionKey(path)
  {
    var normal := LexicallyNormal(Joined(path));
    key := normal;
    for k := 0 to |normal|
      invariant |key| == |normal|
      invariant forall i :: 0 <= i < k ==> key[i] == FoldedByte(normal[i])
      invariant forall i :: k <= i < |normal| ==> key[i] == normal[i]
    {
      if key[k] < 0x80 {
        key := key[k := FoldedByte(key[k])];
      }
    }
  }

  class CollisionTracker {
    var entries: map<seq<byte>, Entry>

    constructor ()
      ensures entries == map[]
    {
      entries := map[];
    }

    /** False stands for the exception that reports the collision. */
    method Add(relativePath: Path, originalName: Name, recordId: nat) returns (ok: bool)
      modifies this
      ensures ok == (CollisionKey(relativePath) !in old(entries))
      ensures entries == if ok
                         then old(entries)[CollisionKey(relativePath) := Entry(originalName, recordId, relativePath)]
                         else old(entries)
    {
      var key := ComputeCollisionKey(relativePath);
      if key in entries {
        return false;
      }
      entries := entries[key := Entry(originalName, recordId, relativePath)];
      return true;
    }
  }
}
