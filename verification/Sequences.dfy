/** Facts about slices that the verifier needs spelled out. */
module Sequences {
  lemma SliceOfSlice<T>(s: seq<T>, a: nat, b: nat, i: nat, j: nat)
    requires a <= b <= |s| && i <= j <= b - a
    ensures s[a..b][i..j] == s[a + i..a + j]
  {
    forall k | 0 <= k < j - i
      ensures s[a..b][i..j][k] == s[a + i..a + j][k]
    {
      assert s[a..b][i + k] == s[a + i + k];
    }
  }

  lemma MiddleSlice<T>(a: seq<T>, b: seq<T>, c: seq<T>)
    ensures (a + b + c)[|a|..|a| + |b|] == b
  {
  }

  /** `part` stands in `s` at `at`. */
  predicate StandsAt<T(==)>(s: seq<T>, at: nat, part: seq<T>) {
    at + |part| <= |s| && s[at..at + |part|] == part
  }

  lemma StandsAtParts<T>(s: seq<T>, at: nat, a: seq<T>, b: seq<T>)
    requires StandsAt(s, at, a + b)
    ensures StandsAt(s, at, a) && StandsAt(s, at + |a|, b)
  {
    assert (a + b)[0..|a|] == a && (a + b)[|a|..|a + b|] == b;
    SliceOfSlice(s, at, at + |a + b|, 0, |a|);
    SliceOfSlice(s, at, at + |a + b|, |a|, |a + b|);
  }

  lemma StandsAtHead<T>(s: seq<T>, at: nat, part: seq<T>)
    requires StandsAt(s, at, part) && part != []
    ensures s[at] == part[0]
  {
    assert s[at..at + |part|][0] == s[at];
  }

  lemma Regroup<T>(a: seq<T>, b: seq<T>, c: seq<T>)
    ensures a + (b + c) == a + b + c
  {
  }

  lemma PrefixGrows<T>(s: seq<T>, k: nat, n: nat)
    requires k + n <= |s|
    ensures s[..k + n] == s[..k] + s[k..][..n]
  {
  }

  lemma NothingAdded<T>(a: seq<T>)
    ensures a + [] == a && [] + a == a
  {
  }

  function Flatten<T>(pieces: seq<seq<T>>): seq<T> {
    if pieces == [] then [] else pieces[0] + Flatten(pieces[1..])
  }

  /** The pieces stand in `s` one after the other, and then `end`. */
  predicate PiecesStand<T(==)>(s: seq<T>, at: nat, pieces: seq<seq<T>>, end: seq<T>)
    decreases |pieces|
  {
    if pieces == [] then StandsAt(s, at, end)
    else StandsAt(s, at, pieces[0]) && PiecesStand(s, at + |pieces[0]|, pieces[1..], end)
  }

  lemma FirstPieceStands<T>(s: seq<T>, at: nat, pieces: seq<seq<T>>, end: seq<T>)
    requires pieces != [] && PiecesStand(s, at, pieces, end)
    ensures StandsAt(s, at, pieces[0]) && PiecesStand(s, at + |pieces[0]|, pieces[1..], end)
  {
  }

  lemma {:induction false} FlattenStands<T>(s: seq<T>, at: nat, pieces: seq<seq<T>>, end: seq<T>)
    requires StandsAt(s, at, Flatten(pieces) + end)
    ensures PiecesStand(s, at, pieces, end)
    decreases |pieces|
  {
    if pieces == [] {
      NothingAdded(end);
    } else {
      Regroup(pieces[0], Flatten(pieces[1..]), end);
      StandsAtParts(s, at, pieces[0], Flatten(pieces[1..]) + end);
      FlattenStands(s, at + |pieces[0]|, pieces[1..], end);
    }
  }

  function FourParts<T>(a: seq<T>, b: seq<T>, c: seq<T>, d: seq<T>): (s: seq<T>)
    ensures |s| == |a| + |b| + |c| + |d|
  {
    a + b + c + d
  }

  lemma FourPartsStand<T>(a: seq<T>, b: seq<T>, c: seq<T>, d: seq<T>)
    ensures StandsAt(FourParts(a, b, c, d), 0, a) && StandsAt(FourParts(a, b, c, d), |a|, b + c)
  {
    var s := FourParts(a, b, c, d);
    assert s[0..|s|] == s;
    Regroup(a, b, c);
    StandsAtParts(s, 0, a + (b + c), d);
    StandsAtParts(s, 0, a, b + c);
  }
}
