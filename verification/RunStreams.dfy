/** When a byte stream is a list of data runs, said on its headers, fields and sums. */
module RunStreams {
  import opened Options
  import opened Bits
  import opened LittleEndian
  import opened MachineInts
  import opened DataRuns

  /** 256 to the power of `n`. */
  function Power256(n: nat): nat {
    if n == 0 then 1 else Power256(n - 1) * 256
  }

  /** The number in `n` bytes, the first of which counts least. */
  function Sum(bytes: seq<byte>, at: nat, n: nat): nat
    requires at + n <= |bytes|
  {
    if n == 0 then 0
    else
      var last: nat := bytes[at + n - 1];
      Sum(bytes, at, n - 1) + last * Power256(n - 1)
  }

  /** The same bytes, the last of which carries the sign. */
  function SignedSum(bytes: seq<byte>, at: nat, n: nat): int
    requires at + n <= |bytes|
  {
    if n > 0 && bytes[at + n - 1] >= 128 then Sum(bytes, at, n) - Power256(n) else Sum(bytes, at, n)
  }

  /** The header at `head` has fields of one to eight and of at most eight bytes, and the next header is at `next`. */
  predicate IsHeader(bytes: seq<byte>, head: nat, next: nat) {
    && head < next <= |bytes|
    && 1 <= bytes[head] % 16 <= 8 && bytes[head] / 16 <= 8
    && next == head + 1 + bytes[head] % 16 + bytes[head] / 16
  }

  predicate IsHole(bytes: seq<byte>, head: nat)
    requires head < |bytes|
  {
    bytes[head] / 16 == 0
  }

  function Count(bytes: seq<byte>, head: nat, next: nat): uint64
    requires IsHeader(bytes, head, next)
  {
    SumFits(bytes, head + 1, bytes[head] % 16);
    Sum(bytes, head + 1, bytes[head] % 16)
  }

  function Distance(bytes: seq<byte>, head: nat, next: nat): int
    requires IsHeader(bytes, head, next)
  {
    SignedSum(bytes, head + 1 + bytes[head] % 16, bytes[head] / 16)
  }

  predicate Follow(bytes: seq<byte>, heads: seq<nat>, i: int)
    requires 0 <= i < |heads| - 1
  {
    IsHeader(bytes, heads[i], heads[i + 1])
  }

  ghost predicate Chained(bytes: seq<byte>, heads: seq<nat>) {
    heads != [] && forall i :: 0 <= i < |heads| - 1 ==> Follow(bytes, heads, i)
  }

  /** The headers follow each other from `start` on, and then comes a zero byte before `end`. */
  ghost predicate AreHeaders(bytes: seq<byte>, start: nat, end: nat, heads: seq<nat>) {
    && end <= |bytes| && Chained(bytes, heads) && heads[0] == start
    && heads[|heads| - 1] < end && bytes[heads[|heads| - 1]] == 0
  }

  /** How far run `i` moves the position; holes do not. */
  function Move(bytes: seq<byte>, heads: seq<nat>, i: nat): int
    requires i + 1 < |heads| && Follow(bytes, heads, i)
  {
    if IsHole(bytes, heads[i]) then 0 else Distance(bytes, heads[i], heads[i + 1])
  }

  /** The position after the first `k` runs: the sum of the distances, from `from` on. */
  ghost function Position(bytes: seq<byte>, heads: seq<nat>, k: nat, from: int): int
    requires Chained(bytes, heads) && k < |heads|
  {
    if k == 0 then from
    else
      assert Follow(bytes, heads, k - 1);
      Position(bytes, heads, k - 1, from) + Move(bytes, heads, k - 1)
  }

  /** Run `i` has the count of its header, is a hole when that has no distance, and otherwise starts at the position. */
  ghost predicate IsRun(bytes: seq<byte>, heads: seq<nat>, i: nat, from: int, run: DataRun)
    requires Chained(bytes, heads) && i + 1 < |heads| && Follow(bytes, heads, i)
  {
    && run.clusterCount == Count(bytes, heads[i], heads[i + 1])
    && (run.sparse <==> IsHole(bytes, heads[i]))
    && 0 <= Position(bytes, heads, i + 1, from) < 0x8000_0000_0000_0000
    && run.lcn == if run.sparse then 0 else Position(bytes, heads, i + 1, from)
  }

  ghost predicate AreRuns(bytes: seq<byte>, heads: seq<nat>, from: int, runs: seq<DataRun>)
    requires Chained(bytes, heads)
  {
    |runs| + 1 == |heads|
    && forall i :: 0 <= i < |runs| ==> Follow(bytes, heads, i) && IsRun(bytes, heads, i, from, runs[i])
  }

  //
  // Fields
  //

  lemma {:induction false} PowersAgree(n: nat)
    ensures Power256(n) == Pow2(8 * n)
  {
    if n > 0 {
      PowersAgree(n - 1);
      Pow2NextByte(8 * (n - 1));
    }
  }

  lemma {:induction false} SumIsValue(bytes: seq<byte>, at: nat, n: nat)
    requires at + n <= |bytes|
    ensures Sum(bytes, at, n) == ValueAt(bytes, at, n)
  {
    if n > 0 {
      SumIsValue(bytes, at, n - 1);
      ValueWithLast(bytes, at, n - 1);
      PowersAgree(n - 1);
    }
  }

  lemma SumFits(bytes: seq<byte>, at: nat, n: nat)
    requires at + n <= |bytes| && n <= 8
    ensures Sum(bytes, at, n) <= UINT64_MAX
  {
    SumIsValue(bytes, at, n);
    ValueBound(bytes, at, n);
    WidthFits(n);
  }

  /** The sign is the top bit of the last byte. */
  lemma SignedSumIsTwosComplement(bytes: seq<byte>, at: nat, n: nat)
    requires 0 < n && at + n <= |bytes|
    ensures SignedSum(bytes, at, n) == TwosComplement(ValueAt(bytes, at, n), n)
  {
    SumIsValue(bytes, at, n);
    SumIsValue(bytes, at, n - 1);
    PowersAgree(n);
    PowersAgree(n - 1);
    ValueBound(bytes, at, n - 1);
    TopByteDecides(bytes[at + n - 1], Sum(bytes, at, n - 1), Pow2(8 * (n - 1)));
    HalfPower(n);
  }

  lemma TopByteDecides(top: byte, low: nat, m: nat)
    requires low < m
    ensures top >= 128 <==> low + top * m >= 128 * m
  {
    if top < 128 {
      assert (top + 1) * m <= 128 * m;
    } else {
      assert top * m >= 128 * m;
    }
  }

  lemma HalfPower(n: nat)
    requires 0 < n
    ensures Pow2(8 * n - 1) == 128 * Pow2(8 * (n - 1))
  {
    Pow2NextByte(8 * (n - 1));
    assert Pow2(8 * n) == 2 * Pow2(8 * n - 1);
  }

  //
  // Acceptance
  //

  /** What the parser makes of one header. */
  lemma HeaderIsRead(bytes: seq<byte>, head: nat, end: nat, from: int)
    requires head < end <= |bytes| && bytes[head] != 0
    ensures var l, d := bytes[head] % 16, bytes[head] / 16;
            var next := head + 1 + l + d;
            RunAt(bytes, head, end, from) ==
            if !(1 <= l <= 8 && d <= 8 && next <= end) then None
            else if d == 0 then Some((DataRun(0, Count(bytes, head, next), true), next))
            else if 0 <= from + Distance(bytes, head, next) < 0x8000_0000_0000_0000
            then Some((DataRun(from + Distance(bytes, head, next), Count(bytes, head, next), false), next))
            else None
  {
    var l: nat, d: nat := bytes[head] % 16, bytes[head] / 16;
    if 1 <= l <= 8 && d <= 8 && head + 1 + l + d <= end {
      FieldsAreRead(bytes, head, end, from, l, d);
    } else {
      RunAtRejects(bytes, head, end, l, d, from);
    }
  }

  lemma FieldsAreRead(bytes: seq<byte>, head: nat, end: nat, from: int, l: nat, d: nat)
    requires head < end <= |bytes| && l == bytes[head] % 16 && d == bytes[head] / 16
    requires 1 <= l <= 8 && d <= 8 && head + 1 + l + d <= end
    ensures var next := head + 1 + l + d;
            && IsHeader(bytes, head, next)
            && RunAt(bytes, head, end, from) ==
               if d == 0 then Some((DataRun(0, Count(bytes, head, next), true), next))
               else if 0 <= from + Distance(bytes, head, next) < 0x8000_0000_0000_0000
               then Some((DataRun(from + Distance(bytes, head, next), Count(bytes, head, next), false), next))
               else None
  {
    SumIsValue(bytes, head + 1, l);
    var count := WordAt(bytes, head + 1, l);
    if d == 0 {
      RunAtFields(bytes, head, end, RunSpec(count, None), l, d, from);
    } else {
      SignedSumIsTwosComplement(bytes, head + 1 + l, d);
      var delta := TwosComplement(WordAt(bytes, head + 1 + l, d), d);
      ValueBound(bytes, head + 1 + l, d);
      TwosComplementFits(WordAt(bytes, head + 1 + l, d), d);
      RunAtFields(bytes, head, end, RunSpec(count, Some(delta)), l, d, from);
    }
  }

  lemma TwosComplementFits(raw: nat, n: nat)
    requires 1 <= n <= 8 && raw < Pow2(8 * n)
    ensures INT64_MIN <= TwosComplement(raw, n) <= INT64_MAX
  {
    assert Pow2(8 * n) == 2 * Pow2(8 * n - 1);
    Pow2Monotonic(8 * n - 1, 63);
    Pow2Of64();
  }

  lemma {:induction false} PositionOfRest(bytes: seq<byte>, heads: seq<nat>, k: nat, from: int)
    requires Chained(bytes, heads) && 1 <= k < |heads| && Follow(bytes, heads, 0)
    ensures Chained(bytes, heads[1..])
    ensures Position(bytes, heads, k, from) == Position(bytes, heads[1..], k - 1, from + Move(bytes, heads, 0))
  {
    RestIsChained(bytes, heads);
    if k == 1 {
      assert Position(bytes, heads, 0, from) == from;
    } else {
      PositionOfRest(bytes, heads, k - 1, from);
      assert Follow(bytes, heads, k - 1) && Follow(bytes, heads[1..], k - 2);
    }
  }

  lemma RestIsChained(bytes: seq<byte>, heads: seq<nat>)
    requires Chained(bytes, heads) && |heads| > 1
    ensures Chained(bytes, heads[1..]) && Follow(bytes, heads, 0)
  {
    forall i | 0 <= i < |heads[1..]| - 1
      ensures Follow(bytes, heads[1..], i)
    {
      assert Follow(bytes, heads, i + 1);
    }
  }

  /** The runs after the first are runs of the other headers, from the position of the first on. */
  lemma RestAreRuns(bytes: seq<byte>, heads: seq<nat>, from: int, runs: seq<DataRun>)
    requires Chained(bytes, heads) && |runs| + 1 == |heads| && runs != []
    ensures Follow(bytes, heads, 0) && Chained(bytes, heads[1..])
    ensures AreRuns(bytes, heads, from, runs) <==>
            IsRun(bytes, heads, 0, from, runs[0])
            && AreRuns(bytes, heads[1..], from + Move(bytes, heads, 0), runs[1..])
  {
    RestIsChained(bytes, heads);
    var moved := from + Move(bytes, heads, 0);
    forall i | 1 <= i < |runs|
      ensures Follow(bytes, heads, i) && Follow(bytes, heads[1..], i - 1)
      ensures IsRun(bytes, heads, i, from, runs[i]) <==> IsRun(bytes, heads[1..], i - 1, moved, runs[1..][i - 1])
    {
      assert Follow(bytes, heads, i);
      assert Follow(bytes, heads[1..], i - 1);
      PositionOfRest(bytes, heads, i + 1, from);
    }
    assert AreRuns(bytes, heads, from, runs) ==> IsRun(bytes, heads, 0, from, runs[0]);
    if AreRuns(bytes, heads, from, runs) {
      forall i | 0 <= i < |runs[1..]|
        ensures Follow(bytes, heads[1..], i) && IsRun(bytes, heads[1..], i, moved, runs[1..][i])
      {
        assert IsRun(bytes, heads, i + 1, from, runs[i + 1]);
      }
    }
    if IsRun(bytes, heads, 0, from, runs[0]) && AreRuns(bytes, heads[1..], moved, runs[1..]) {
      forall i | 0 <= i < |runs|
        ensures Follow(bytes, heads, i) && IsRun(bytes, heads, i, from, runs[i])
      {
        if i > 0 {
          assert IsRun(bytes, heads[1..], i - 1, moved, runs[1..][i - 1]);
        }
      }
    }
  }

  lemma {:induction false} HeadersOf(bytes: seq<byte>, start: nat, end: nat, from: int) returns (heads: seq<nat>)
    requires end <= |bytes| && 0 <= from <= INT64_MAX && ParsedRuns(bytes, start, end, from).Some?
    ensures AreHeaders(bytes, start, end, heads)
    ensures AreRuns(bytes, heads, from, ParsedRuns(bytes, start, end, from).value)
    decreases end - start
  {
    if bytes[start] == 0 {
      heads := [start];
    } else {
      HeaderIsRead(bytes, start, end, from);
      var (run, next) := RunAt(bytes, start, end, from).value;
      var rest := HeadersOf(bytes, next, end, NextLcn(from, run));
      heads := [start] + rest;
      RunsJoin(bytes, start, next, end, from, run, rest, ParsedRuns(bytes, next, end, NextLcn(from, run)).value);
    }
  }

  /** The runs of the other headers, with the first run before them. */
  lemma RunsJoin(bytes: seq<byte>, start: nat, next: nat, end: nat, from: int, run: DataRun, rest: seq<nat>,
                 others: seq<DataRun>)
    requires IsHeader(bytes, start, next) && AreHeaders(bytes, next, end, rest)
    requires run.clusterCount == Count(bytes, start, next) && (run.sparse <==> IsHole(bytes, start))
    requires run.sparse ==> run.lcn == 0 && 0 <= from < 0x8000_0000_0000_0000
    requires !run.sparse ==> run.lcn == from + Distance(bytes, start, next) < 0x8000_0000_0000_0000
    requires AreRuns(bytes, rest, NextLcn(from, run), others)
    ensures AreHeaders(bytes, start, end, [start] + rest)
    ensures AreRuns(bytes, [start] + rest, from, [run] + others)
  {
    var heads, runs := [start] + rest, [run] + others;
    HeadersJoin(bytes, start, next, end, rest);
    assert heads[1..] == rest && runs[1..] == others;
    assert Follow(bytes, heads, 0);
    assert Position(bytes, heads, 0, from) == from;
    RestAreRuns(bytes, heads, from, runs);
  }

  lemma HeadersJoin(bytes: seq<byte>, start: nat, next: nat, end: nat, rest: seq<nat>)
    requires IsHeader(bytes, start, next) && AreHeaders(bytes, next, end, rest)
    ensures AreHeaders(bytes, start, end, [start] + rest)
  {
    var heads := [start] + rest;
    forall i | 0 <= i < |heads| - 1
      ensures Follow(bytes, heads, i)
    {
      assert i > 0 ==> Follow(bytes, rest, i - 1);
    }
  }

  lemma {:induction false} HeadersAscend(bytes: seq<byte>, heads: seq<nat>, k: nat)
    requires Chained(bytes, heads) && k < |heads|
    ensures heads[k] <= heads[|heads| - 1]
    decreases |heads| - k
  {
    if k < |heads| - 1 {
      assert Follow(bytes, heads, k);
      HeadersAscend(bytes, heads, k + 1);
    }
  }

  lemma {:induction false} RunsOf(bytes: seq<byte>, start: nat, end: nat, from: int, heads: seq<nat>,
                                  runs: seq<DataRun>)
    requires AreHeaders(bytes, start, end, heads) && AreRuns(bytes, heads, from, runs)
    ensures ParsedRuns(bytes, start, end, from) == Some(runs)
    decreases |heads|
  {
    HeadersAscend(bytes, heads, 0);
    if runs != [] {
      HeadersAscend(bytes, heads, 1);
      RestAreRuns(bytes, heads, from, runs);
      HeaderIsRead(bytes, start, end, from);
      assert Position(bytes, heads, 0, from) == from;
      var next, moved := heads[1], from + Move(bytes, heads, 0);
      assert RunAt(bytes, start, end, from) == Some((runs[0], next));
      RunsOf(bytes, next, end, moved, heads[1..], runs[1..]);
      assert [runs[0]] + runs[1..] == runs;
    }
  }

  /** Main result: a stream is read as these runs if and only if headers of allowed widths follow each other up to a
      zero byte inside the range, no position leaves 0..2^63-1, and the runs have the counts and positions of the
      fields. */
  lemma ReadIffStream(bytes: seq<byte>, start: nat, end: nat, runs: seq<DataRun>)
    requires end <= |bytes|
    ensures ParsedRuns(bytes, start, end, 0) == Some(runs) <==>
            exists heads :: AreHeaders(bytes, start, end, heads) && AreRuns(bytes, heads, 0, runs)
  {
    if ParsedRuns(bytes, start, end, 0) == Some(runs) {
      var heads := HeadersOf(bytes, start, end, 0);
    }
    if heads :| AreHeaders(bytes, start, end, heads) && AreRuns(bytes, heads, 0, runs) {
      RunsOf(bytes, start, end, 0, heads, runs);
    }
  }
}
