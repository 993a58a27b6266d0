/** Which names and data a record holds, said on the record's bytes. */
module AttributeBytes {
  import opened Options
  import opened LittleEndian
  import opened RunStreams
  import opened Utf
  import opened MftRecord
  import opened RecordBytes

  //
  // The walk over the attributes
  //

  /** An attribute header stands at `at`: not the end marker, at least 16 bytes long, and inside the record. */
  predicate Stands(b: seq<byte>, at: nat) {
    && at + 16 <= |b| && U32(b, at) != 0xFFFF_FFFF
    && 16 <= U32(b, at + 4) && at + U32(b, at + 4) <= |b|
  }

  function Behind(b: seq<byte>, at: nat): nat
    requires Stands(b, at)
  {
    at + U32(b, at + 4)
  }

  /** Attribute `k` stands in the record, and the next one, if there is one, right behind it. */
  predicate IsStep(b: seq<byte>, offsets: seq<nat>, k: int)
    requires 0 <= k < |offsets|
  {
    Stands(b, offsets[k]) && (k + 1 < |offsets| ==> offsets[k + 1] == Behind(b, offsets[k]))
  }

  /** The attributes stand end to end from `first` on, and none stands behind the last. */
  ghost predicate IsWalk(b: seq<byte>, first: nat, offsets: seq<nat>) {
    && (forall k :: 0 <= k < |offsets| ==> IsStep(b, offsets, k))
    && if offsets == [] then !Stands(b, first)
       else
         var last := |offsets| - 1;
         offsets[0] == first && IsStep(b, offsets, last) && !Stands(b, Behind(b, offsets[last]))
  }

  lemma StandsIff(b: seq<byte>, at: nat)
    ensures Stands(b, at) <==> AttributeAt(b, at)
    ensures Stands(b, at) ==> AttributeEnd(b, at) == Behind(b, at)
  {
    WordsAreSums(b, at);
    WordsAreSums(b, at + 4);
  }

  lemma FirstStep(b: seq<byte>, first: nat, rest: seq<nat>)
    requires Stands(b, first) && IsWalk(b, Behind(b, first), rest)
    ensures IsWalk(b, first, [first] + rest)
  {
    var offsets := [first] + rest;
    forall k | 0 <= k < |offsets|
      ensures IsStep(b, offsets, k)
    {
      assert k > 0 ==> IsStep(b, rest, k - 1);
    }
    assert rest != [] ==> IsStep(b, rest, |rest| - 1);
  }

  lemma RestOfWalk(b: seq<byte>, first: nat, offsets: seq<nat>)
    requires IsWalk(b, first, offsets) && offsets != []
    ensures Stands(b, first) && offsets[0] == first && IsWalk(b, Behind(b, first), offsets[1..])
  {
    assert IsStep(b, offsets, 0);
    var rest := offsets[1..];
    forall k | 0 <= k < |rest|
      ensures IsStep(b, rest, k)
    {
      assert IsStep(b, offsets, k + 1);
    }
    assert IsStep(b, offsets, |offsets| - 1);
  }

  /** Main result: the walk visits these offsets if and only if the attributes stand there end to end and no further one
      behind them. */
  lemma {:induction false} VisitedIff(b: seq<byte>, first: nat, offsets: seq<nat>)
    ensures AttributesFrom(b, first) == offsets <==> IsWalk(b, first, offsets)
    decreases |b| - first
  {
    StandsIff(b, first);
    if Stands(b, first) {
      var next := Behind(b, first);
      var rest := AttributesFrom(b, next);
      VisitedIff(b, next, rest);
      FirstStep(b, first, rest);
      if IsWalk(b, first, offsets) && offsets != [] {
        RestOfWalk(b, first, offsets);
        VisitedIff(b, next, offsets[1..]);
        assert offsets == [first] + offsets[1..];
      }
    } else if IsWalk(b, first, offsets) && offsets != [] {
      RestOfWalk(b, first, offsets);
    }
  }

  //
  // Names
  //

  /** The content of the name attribute at `at`, if it is one and its content lies in the record. */
  predicate HasContent(b: seq<byte>, at: nat, start: nat, end: nat)
    requires Stands(b, at)
  {
    && U32(b, at) == 0x30 && b[at + 8] == 0 && at + 22 <= |b|
    && start == at + U16(b, at + 20) && end == start + U32(b, at + 16)
    && start + 66 <= |b| && end <= |b|
  }

  /** The text of a name, not empty: as many code units as its length says. */
  predicate HasText(b: seq<byte>, start: nat, end: nat, text: seq<byte>)
    requires start + 66 <= |b| && end <= |b|
  {
    && start + 66 + 2 * Octet(b, start + 64) <= end
    && text == Utf8Name(b[start + 66..start + 66 + 2 * Octet(b, start + 64)]) && text != []
  }

  /** The fields of a name at their places. */
  predicate HasNumbers(b: seq<byte>, start: nat, recordIsDirectory: bool, name: MftFileName)
    requires start + 66 <= |b|
  {
    && name.parentRef == U48(b, start)
    && name.allocatedSize == U64(b, start + 40) && name.realSize == U64(b, start + 48)
    && name.flags == U32(b, start + 56) && name.nameNamespace == b[start + 65]
    && (name.isDirectory <==> recordIsDirectory || b[start + 59] / 16 % 2 == 1)
  }

  /** The name read from this content: the fields at their places, and a text that is not empty. */
  predicate HasFields(b: seq<byte>, start: nat, end: nat, recordIsDirectory: bool, name: MftFileName)
    requires start + 66 <= |b| && end <= |b|
  {
    HasText(b, start, end, name.name) && HasNumbers(b, start, recordIsDirectory, name)
  }

  predicate IsNameAt(b: seq<byte>, at: nat, recordIsDirectory: bool, name: MftFileName)
    requires Stands(b, at)
  {
    var start := if at + 22 <= |b| then at + U16(b, at + 20) else 0;
    var end := if at + 22 <= |b| then start + U32(b, at + 16) else 0;
    HasContent(b, at, start, end) && HasFields(b, start, end, recordIsDirectory, name)
  }

  lemma ContentIff(b: seq<byte>, at: nat)
    requires Stands(b, at) && AttributeAt(b, at)
    ensures NameBounds(b, at).Some? <==>
            at + 22 <= |b| && HasContent(b, at, at + U16(b, at + 20), at + U16(b, at + 20) + U32(b, at + 16))
    ensures NameBounds(b, at).Some? ==>
              NameBounds(b, at).value == (at + U16(b, at + 20), at + U16(b, at + 20) + U32(b, at + 16))
  {
    WordsAreSums(b, at);
    WordsAreSums(b, at + 16);
    WordsAreSums(b, at + 20);
  }

  lemma FieldsIff(b: seq<byte>, start: nat, end: nat, recordIsDirectory: bool, name: MftFileName)
    requires start + 66 <= |b| && end <= |b|
    ensures FileNameContent(b, start, end, recordIsDirectory) == Some(name) <==>
            HasFields(b, start, end, recordIsDirectory, name)
  {
    TextIff(b, start, end, name.name);
    NumbersIff(b, start, name, recordIsDirectory);
  }

  lemma TextIff(b: seq<byte>, start: nat, end: nat, text: seq<byte>)
    requires start + 66 <= |b| && end <= |b|
    ensures NameText(b, start, end) == Some(text) <==> HasText(b, start, end, text)
  {
  }

  lemma NumbersIff(b: seq<byte>, start: nat, name: MftFileName, recordIsDirectory: bool)
    requires start + 66 <= |b|
    ensures NamedFields(b, start, name.name, recordIsDirectory) == name <==>
            HasNumbers(b, start, recordIsDirectory, name)
  {
    WordsAreSums(b, start);
    WordsAreSums(b, start + 40);
    WordsAreSums(b, start + 48);
    WordsAreSums(b, start + 56);
  }

  lemma NameInContentIff(b: seq<byte>, at: nat, start: nat, end: nat, recordIsDirectory: bool, name: MftFileName)
    requires Stands(b, at) && AttributeAt(b, at) && NameBounds(b, at) == Some((start, end))
    requires start == at + U16(b, at + 20) && end == start + U32(b, at + 16) && HasContent(b, at, start, end)
    ensures FileNameAt(b, at, recordIsDirectory) == Some(name) <==> IsNameAt(b, at, recordIsDirectory, name)
  {
    FieldsIff(b, start, end, recordIsDirectory, name);
    NameFromContent(b, at, start, end, recordIsDirectory);
    NameWithFields(b, at, start, end, recordIsDirectory, name);
  }

  lemma NameFromContent(b: seq<byte>, at: nat, start: nat, end: nat, recordIsDirectory: bool)
    requires AttributeAt(b, at) && NameBounds(b, at) == Some((start, end))
    ensures FileNameAt(b, at, recordIsDirectory) == FileNameContent(b, start, end, recordIsDirectory)
  {
  }

  lemma NameWithFields(b: seq<byte>, at: nat, start: nat, end: nat, recordIsDirectory: bool, name: MftFileName)
    requires Stands(b, at) && HasContent(b, at, start, end)
    ensures IsNameAt(b, at, recordIsDirectory, name) <==> HasFields(b, start, end, recordIsDirectory, name)
  {
  }

  lemma NameAtIff(b: seq<byte>, at: nat, recordIsDirectory: bool, name: MftFileName)
    requires Stands(b, at)
    ensures AttributeAt(b, at)
    ensures FileNameAt(b, at, recordIsDirectory) == Some(name) <==> IsNameAt(b, at, recordIsDirectory, name)
  {
    StandsIff(b, at);
    ContentIff(b, at);
    if NameBounds(b, at).Some? {
      var (start, end) := NameBounds(b, at).value;
      NameInContentIff(b, at, start, end, recordIsDirectory, name);
    }
  }

  //
  // Data
  //

  /** An unnamed data attribute that is neither compressed nor encrypted. */
  predicate IsPlainData(b: seq<byte>, at: nat)
    requires Stands(b, at)
  {
    U32(b, at) == 0x80 && b[at + 9] == 0 && b[at + 12] % 2 == 0 && b[at + 13] / 64 % 2 == 0
  }

  /** The payload in the attribute. */
  predicate IsPayload(b: seq<byte>, at: nat, data: DataAttribute)
    requires Stands(b, at)
  {
    && b[at + 8] == 0 && at + 22 <= |b|
    && var start, length := at + U16(b, at + 20), U32(b, at + 16);
       && start + length <= at + U32(b, at + 4)
       && data.resident && data.residentData == b[start..start + length] && data.runs == [] && data.realSize == length
  }

  /** The run list in the attribute. */
  ghost predicate IsRunList(b: seq<byte>, at: nat, data: DataAttribute)
    requires Stands(b, at)
  {
    && b[at + 8] == 1 && at + 56 <= |b|
    && var start, end := at + U16(b, at + 32), at + U32(b, at + 4);
       && start < end
       && !data.resident && data.residentData == [] && data.realSize == U64(b, at + 48)
       && exists heads :: AreHeaders(b, start, end, heads) && AreRuns(b, heads, 0, data.runs)
  }

  ghost predicate IsDataAt(b: seq<byte>, at: nat, data: DataAttribute)
    requires Stands(b, at)
  {
    IsPlainData(b, at) && (IsPayload(b, at, data) || IsRunList(b, at, data))
  }

  lemma PlainIff(b: seq<byte>, at: nat)
    requires Stands(b, at) && AttributeAt(b, at)
    ensures IsPlainData(b, at) <==>
            Word32(b, at) == ATTRIBUTE_DATA && b[at + 9] == 0 && PlainFlags(Word16(b, at + 12))
  {
    WordsAreSums(b, at);
    FlagBits(b, at + 12);
  }

  lemma PayloadIff(b: seq<byte>, at: nat, data: DataAttribute)
    requires Stands(b, at) && AttributeAt(b, at) && b[at + 8] == 0
    ensures ResidentAt(b, at) == Some(data) <==> IsPayload(b, at, data)
  {
    StandsIff(b, at);
    WordsAreSums(b, at + 16);
    WordsAreSums(b, at + 20);
  }

  lemma RunListIff(b: seq<byte>, at: nat, data: DataAttribute)
    requires Stands(b, at) && AttributeAt(b, at) && b[at + 8] == 1
    ensures NonResidentAt(b, at) == Some(data) <==> IsRunList(b, at, data)
  {
    StandsIff(b, at);
    WordsAreSums(b, at + 32);
    WordsAreSums(b, at + 48);
    if at + 56 <= |b| && at + U16(b, at + 32) < at + U32(b, at + 4) {
      ReadIffStream(b, at + U16(b, at + 32), at + U32(b, at + 4), data.runs);
    }
  }

  lemma DataAtIff(b: seq<byte>, at: nat, data: DataAttribute)
    requires Stands(b, at)
    ensures AttributeAt(b, at)
    ensures DataAt(b, at) == Some(data) <==> IsDataAt(b, at, data)
  {
    StandsIff(b, at);
    PlainIff(b, at);
    if b[at + 8] == 0 {
      PayloadIff(b, at, data);
    }
    if b[at + 8] == 1 {
      RunListIff(b, at, data);
    }
  }

  //
  // Selecting from the attributes
  //

  /** The values among `found`, in order. */
  function Found<T>(found: seq<Option<T>>): seq<T> {
    if found == [] then []
    else if found[0].None? then Found(found[1..])
    else [found[0].value] + Found(found[1..])
  }

  /** `picks` are the places of `result` among `found`, in order, and there is nothing elsewhere. */
  ghost predicate IsSelection<T>(found: seq<Option<T>>, picks: seq<nat>, result: seq<T>) {
    && |picks| == |result|
    && (forall e :: 0 <= e < |picks| ==> picks[e] < |found| && found[picks[e]] == Some(result[e]))
    && (forall d, e :: 0 <= d < e < |picks| ==> picks[d] < picks[e])
    && (forall k: nat :: k < |found| && found[k].Some? ==> k in picks)
  }

  lemma {:induction false} FoundIsSelection<T>(found: seq<Option<T>>) returns (picks: seq<nat>)
    ensures IsSelection(found, picks, Found(found))
  {
    if found == [] {
      picks := [];
    } else {
      var rest := FoundIsSelection(found[1..]);
      picks := FirstSelection(found, rest);
    }
  }

  lemma FirstSelection<T>(found: seq<Option<T>>, rest: seq<nat>) returns (picks: seq<nat>)
    requires found != [] && IsSelection(found[1..], rest, Found(found[1..]))
    ensures IsSelection(found, picks, Found(found))
  {
    var shifted := seq(|rest|, e requires 0 <= e < |rest| => rest[e] + 1);
    ShiftedSelection(found, rest, Found(found[1..]), shifted);
    if found[0].None? {
      picks := shifted;
    } else {
      picks := [0] + shifted;
      SelectionWithFirst(found, shifted, Found(found[1..]), picks);
    }
  }

  lemma SelectionWithFirst<T>(found: seq<Option<T>>, shifted: seq<nat>, result: seq<T>, picks: seq<nat>)
    requires found != [] && found[0].Some? && picks == [0] + shifted && |shifted| == |result|
    requires forall e :: 0 <= e < |shifted| ==>
                           0 < shifted[e] < |found| && found[shifted[e]] == Some(result[e])
    requires forall d, e :: 0 <= d < e < |shifted| ==> shifted[d] < shifted[e]
    requires forall k: nat :: 0 < k < |found| && found[k].Some? ==> k in shifted
    ensures IsSelection(found, picks, [found[0].value] + result)
  {
    var all := [found[0].value] + result;
    forall e | 0 <= e < |picks|
      ensures picks[e] < |found| && found[picks[e]] == Some(all[e])
    {
      assert e > 0 ==> picks[e] == shifted[e - 1] && all[e] == result[e - 1];
    }
    forall d, e | 0 <= d < e < |picks|
      ensures picks[d] < picks[e]
    {
      assert picks[e] == shifted[e - 1];
      assert d > 0 ==> picks[d] == shifted[d - 1];
    }
  }

  lemma ShiftedSelection<T>(found: seq<Option<T>>, rest: seq<nat>, result: seq<T>, shifted: seq<nat>)
    requires found != [] && IsSelection(found[1..], rest, result) && |shifted| == |rest|
    requires forall e :: 0 <= e < |rest| ==> shifted[e] == rest[e] + 1
    ensures forall e :: 0 <= e < |shifted| ==>
                          0 < shifted[e] < |found| && found[shifted[e]] == Some(result[e])
    ensures forall d, e :: 0 <= d < e < |shifted| ==> shifted[d] < shifted[e]
    ensures forall k: nat :: 0 < k < |found| && found[k].Some? ==> k in shifted
  {
    forall k: nat | 0 < k < |found| && found[k].Some?
      ensures k in shifted
    {
      assert found[1..][k - 1].Some?;
      var e :| 0 <= e < |rest| && rest[e] == k - 1;
      assert shifted[e] == k;
    }
  }

  /** Where `q` has what `p` has at `n`, and not before, when they agree before `n`. */
  lemma PickIsLater<T>(found: seq<Option<T>>, p: seq<nat>, a: seq<T>, q: seq<nat>, b: seq<T>, n: nat) returns (e: nat)
    requires IsSelection(found, p, a) && IsSelection(found, q, b) && n < |p|
    requires n <= |q| && forall d :: 0 <= d < n ==> p[d] == q[d]
    ensures n <= e < |q| && q[e] == p[n] && q[n] <= p[n]
  {
    assert found[p[n]].Some?;
    e :| 0 <= e < |q| && q[e] == p[n];
    if e < n {
      assert false;
    }
  }

  /** A selection is determined by what is found. */
  lemma {:induction false} SelectionsAgree<T>(found: seq<Option<T>>, p: seq<nat>, a: seq<T>, q: seq<nat>, b: seq<T>,
                                              n: nat)
    requires IsSelection(found, p, a) && IsSelection(found, q, b) && n <= |p|
    ensures n <= |q| && forall d :: 0 <= d < n ==> p[d] == q[d]
  {
    if n > 0 {
      SelectionsAgree(found, p, a, q, b, n - 1);
      NextPickAgrees(found, p, a, q, b, n - 1);
    }
  }

  lemma NextPickAgrees<T>(found: seq<Option<T>>, p: seq<nat>, a: seq<T>, q: seq<nat>, b: seq<T>, n: nat)
    requires IsSelection(found, p, a) && IsSelection(found, q, b) && n < |p|
    requires n <= |q| && forall d :: 0 <= d < n ==> p[d] == q[d]
    ensures n < |q| && p[n] == q[n]
  {
    var e := PickIsLater(found, p, a, q, b, n);
    var d := PickIsLater(found, q, b, p, a, n);
  }

  /** Increasing places in a list of `n`. */
  ghost predicate ArePlaces(picks: seq<nat>, n: nat) {
    && (forall e :: 0 <= e < |picks| ==> picks[e] < n)
    && (forall d, e :: 0 <= d < e < |picks| ==> picks[d] < picks[e])
  }

  /** The values hold at their places, and no value holds elsewhere. */
  ghost predicate HoldAt<T(!new)>(holds: (nat, T) -> bool, n: nat, picks: seq<nat>, result: seq<T>) {
    && |picks| == |result| && ArePlaces(picks, n)
    && (forall e :: 0 <= e < |result| ==> holds(picks[e], result[e]))
    && forall k: nat, v :: k < n && holds(k, v) ==> k in picks
  }

  lemma SelectionIff<T(!new)>(found: seq<Option<T>>, holds: (nat, T) -> bool, picks: seq<nat>, result: seq<T>)
    requires forall k: nat, v :: k < |found| ==> (found[k] == Some(v) <==> holds(k, v))
    ensures IsSelection(found, picks, result) <==> HoldAt(holds, |found|, picks, result)
  {
    if HoldAt(holds, |found|, picks, result) {
      forall k: nat | k < |found| && found[k].Some?
        ensures k in picks
      {
        assert holds(k, found[k].value);
      }
    }
  }

  lemma FoundIff<T>(found: seq<Option<T>>, result: seq<T>)
    ensures Found(found) == result <==> exists picks :: IsSelection(found, picks, result)
  {
    var p := FoundIsSelection(found);
    if q :| IsSelection(found, q, result) {
      SelectionsAgree(found, p, Found(found), q, result, |p|);
      SelectionsAgree(found, q, result, p, Found(found), |q|);
      forall e | 0 <= e < |p|
        ensures Found(found)[e] == result[e]
      {
        assert found[p[e]] == Some(Found(found)[e]) == Some(result[e]);
      }
    }
  }

  //
  // The names and the data of a list of attributes
  //

  ghost predicate AllStand(b: seq<byte>, offsets: seq<nat>) {
    forall k :: 0 <= k < |offsets| ==> Stands(b, offsets[k])
  }

  /** The attributes at these places hold the names, in order, and no other one holds a name. */
  ghost predicate AreNames(b: seq<byte>, offsets: seq<nat>, recordIsDirectory: bool, names: seq<MftFileName>,
                           picks: seq<nat>)
    requires AllStand(b, offsets)
  {
    && |picks| == |names| && ArePlaces(picks, |offsets|)
    && (forall e :: 0 <= e < |names| ==> IsNameAt(b, offsets[picks[e]], recordIsDirectory, names[e]))
    && forall k, name :: 0 <= k < |offsets| && IsNameAt(b, offsets[k], recordIsDirectory, name) ==> k in picks
  }

  /** The same for data. */
  ghost predicate AreDatas(b: seq<byte>, offsets: seq<nat>, datas: seq<DataAttribute>, picks: seq<nat>)
    requires AllStand(b, offsets)
  {
    && |picks| == |datas| && ArePlaces(picks, |offsets|)
    && (forall e :: 0 <= e < |datas| ==> IsDataAt(b, offsets[picks[e]], datas[e]))
    && forall k, data :: 0 <= k < |offsets| && IsDataAt(b, offsets[k], data) ==> k in picks
  }

  function NamesFound(b: seq<byte>, offsets: seq<nat>, recordIsDirectory: bool): (found: seq<Option<MftFileName>>)
    requires forall o :: o in offsets ==> AttributeAt(b, o)
    ensures |found| == |offsets|
  {
    seq(|offsets|, k requires 0 <= k < |offsets| => FileNameAt(b, offsets[k], recordIsDirectory))
  }

  function DatasFound(b: seq<byte>, offsets: seq<nat>): (found: seq<Option<DataAttribute>>)
    requires forall o :: o in offsets ==> AttributeAt(b, o)
    ensures |found| == |offsets|
  {
    seq(|offsets|, k requires 0 <= k < |offsets| => DataAt(b, offsets[k]))
  }

  lemma {:induction false} NamesAreFound(b: seq<byte>, offsets: seq<nat>, recordIsDirectory: bool)
    requires forall o :: o in offsets ==> AttributeAt(b, o)
    ensures NamesAt(b, offsets, recordIsDirectory) == Found(NamesFound(b, offsets, recordIsDirectory))
  {
    if offsets != [] {
      var found := NamesFound(b, offsets, recordIsDirectory);
      NamesAreFound(b, offsets[1..], recordIsDirectory);
      assert found[1..] == NamesFound(b, offsets[1..], recordIsDirectory);
      assert found[0] == FileNameAt(b, offsets[0], recordIsDirectory);
    }
  }

  lemma {:induction false} DatasAreFound(b: seq<byte>, offsets: seq<nat>)
    requires forall o :: o in offsets ==> AttributeAt(b, o)
    ensures DataAttributesAt(b, offsets) == Found(DatasFound(b, offsets))
  {
    if offsets != [] {
      var found := DatasFound(b, offsets);
      DatasAreFound(b, offsets[1..]);
      assert found[1..] == DatasFound(b, offsets[1..]);
      assert found[0] == DataAt(b, offsets[0]);
    }
  }

  lemma NameSelectionIff(b: seq<byte>, offsets: seq<nat>, recordIsDirectory: bool, names: seq<MftFileName>,
                         picks: seq<nat>)
    requires AllStand(b, offsets) && forall o :: o in offsets ==> AttributeAt(b, o)
    ensures IsSelection(NamesFound(b, offsets, recordIsDirectory), picks, names) <==>
            AreNames(b, offsets, recordIsDirectory, names, picks)
  {
    var found := NamesFound(b, offsets, recordIsDirectory);
    var holds := (k: nat, name: MftFileName) =>
      k < |offsets| && Stands(b, offsets[k]) && IsNameAt(b, offsets[k], recordIsDirectory, name);
    forall k: nat, name | k < |found|
      ensures found[k] == Some(name) <==> holds(k, name)
    {
      NameAtIff(b, offsets[k], recordIsDirectory, name);
    }
    SelectionIff(found, holds, picks, names);
    NamesHoldIff(b, offsets, recordIsDirectory, names, picks, holds);
  }

  lemma NamesHoldIff(b: seq<byte>, offsets: seq<nat>, recordIsDirectory: bool, names: seq<MftFileName>,
                     picks: seq<nat>, holds: (nat, MftFileName) -> bool)
    requires AllStand(b, offsets)
    requires forall k: nat, name :: k < |offsets| ==>
               (holds(k, name) <==> IsNameAt(b, offsets[k], recordIsDirectory, name))
    ensures HoldAt(holds, |offsets|, picks, names) <==> AreNames(b, offsets, recordIsDirectory, names, picks)
  {
  }

  lemma DataSelectionIff(b: seq<byte>, offsets: seq<nat>, datas: seq<DataAttribute>, picks: seq<nat>)
    requires AllStand(b, offsets) && forall o :: o in offsets ==> AttributeAt(b, o)
    ensures IsSelection(DatasFound(b, offsets), picks, datas) <==> AreDatas(b, offsets, datas, picks)
  {
    var found := DatasFound(b, offsets);
    var holds := (k: nat, data: DataAttribute) =>
      k < |offsets| && Stands(b, offsets[k]) && IsDataAt(b, offsets[k], data);
    forall k: nat, data | k < |found|
      ensures found[k] == Some(data) <==> holds(k, data)
    {
      DataAtIff(b, offsets[k], data);
    }
    SelectionIff(found, holds, picks, datas);
    DatasHoldIff(b, offsets, datas, picks, holds);
  }

  lemma DatasHoldIff(b: seq<byte>, offsets: seq<nat>, datas: seq<DataAttribute>, picks: seq<nat>,
                     holds: (nat, DataAttribute) -> bool)
    requires AllStand(b, offsets)
    requires forall k: nat, data :: k < |offsets| ==> (holds(k, data) <==> IsDataAt(b, offsets[k], data))
    ensures HoldAt(holds, |offsets|, picks, datas) <==> AreDatas(b, offsets, datas, picks)
  {
  }

  /** The names of a walk from `first`. */
  ghost predicate WalkHasNames(b: seq<byte>, first: nat, recordIsDirectory: bool, names: seq<MftFileName>,
                               offsets: seq<nat>, picks: seq<nat>) {
    IsWalk(b, first, offsets) && AllStand(b, offsets) && AreNames(b, offsets, recordIsDirectory, names, picks)
  }

  ghost predicate WalkHasDatas(b: seq<byte>, first: nat, datas: seq<DataAttribute>, offsets: seq<nat>,
                               picks: seq<nat>) {
    IsWalk(b, first, offsets) && AllStand(b, offsets) && AreDatas(b, offsets, datas, picks)
  }

  /** From a walk, exactly these names are collected. */
  lemma NamesIff(b: seq<byte>, first: nat, recordIsDirectory: bool, names: seq<MftFileName>)
    ensures NamesFrom(b, first, recordIsDirectory) == names <==>
            exists offsets, picks :: WalkHasNames(b, first, recordIsDirectory, names, offsets, picks)
  {
    var visited := AttributesFrom(b, first);
    VisitedIff(b, first, visited);
    WalkStands(b, first, visited);
    NamesAreFound(b, visited, recordIsDirectory);
    FoundIff(NamesFound(b, visited, recordIsDirectory), names);
    if NamesFrom(b, first, recordIsDirectory) == names {
      var picks :| IsSelection(NamesFound(b, visited, recordIsDirectory), picks, names);
      NameSelectionIff(b, visited, recordIsDirectory, names, picks);
      assert WalkHasNames(b, first, recordIsDirectory, names, visited, picks);
    }
    if offsets, picks :| WalkHasNames(b, first, recordIsDirectory, names, offsets, picks) {
      VisitedIff(b, first, offsets);
      NameSelectionIff(b, visited, recordIsDirectory, names, picks);
    }
  }

  lemma DatasIff(b: seq<byte>, first: nat, datas: seq<DataAttribute>)
    ensures DataFrom(b, first) == datas <==>
            exists offsets, picks :: WalkHasDatas(b, first, datas, offsets, picks)
  {
    var visited := AttributesFrom(b, first);
    VisitedIff(b, first, visited);
    WalkStands(b, first, visited);
    DatasAreFound(b, visited);
    FoundIff(DatasFound(b, visited), datas);
    if DataFrom(b, first) == datas {
      var picks :| IsSelection(DatasFound(b, visited), picks, datas);
      DataSelectionIff(b, visited, datas, picks);
      assert WalkHasDatas(b, first, datas, visited, picks);
    }
    if offsets, picks :| WalkHasDatas(b, first, datas, offsets, picks) {
      VisitedIff(b, first, offsets);
      DataSelectionIff(b, visited, datas, picks);
    }
  }

  lemma WalkStands(b: seq<byte>, first: nat, offsets: seq<nat>)
    requires IsWalk(b, first, offsets)
    ensures AllStand(b, offsets)
  {
    forall k | 0 <= k < |offsets|
      ensures Stands(b, offsets[k])
    {
      assert IsStep(b, offsets, k);
    }
  }

  //
  // The whole record
  //

  /** `r` is the record in `input`: 1024 bytes with the signature, the sector trailers restored. */
  ghost predicate IsRecordIn(r: seq<byte>, input: seq<byte>) {
    && |input| == 1024 && input[0] == 0x46 && input[1] == 0x49 && input[2] == 0x4C && input[3] == 0x45
    && IsRestoredFrom(r, input)
  }

  lemma RecordInIff(input: seq<byte>, r: seq<byte>)
    ensures RestoredRecord(input) == Some(r) <==> IsRecordIn(r, input)
  {
    RestoredIff(input, r);
    if |input| == 1024 {
      assert input[..4] == [input[0], input[1], input[2], input[3]];
      assert HasSignature(input) <==> input[..4] == FILE_SIGNATURE;
    }
  }

  /** The names of the record, in order. */
  ghost predicate HasNames(r: seq<byte>, names: seq<MftFileName>)
    requires |r| == 1024
  {
    var first, isDirectory := U16(r, 0x14), r[0x16] / 2 % 2 == 1;
    exists offsets, picks :: WalkHasNames(r, first, isDirectory, names, offsets, picks)
  }

  ghost predicate HasDatas(r: seq<byte>, datas: seq<DataAttribute>)
    requires |r| == 1024
  {
    var first := U16(r, 0x14);
    exists offsets, picks :: WalkHasDatas(r, first, datas, offsets, picks)
  }

  /** Main result: the number of a record is the one in its header. */
  lemma NumberIff(input: seq<byte>, number: nat)
    ensures RecordNumberOf(input) == Some(number) <==>
            exists r :: IsRecordIn(r, input) && number == U32(r, 0x2C)
  {
    var restored := RestoredRecord(input);
    if restored.Some? {
      RecordInIff(input, restored.value);
      WordsAreSums(restored.value, 0x2C);
    }
    if r :| IsRecordIn(r, input) && number == U32(r, 0x2C) {
      RecordInIff(input, r);
    }
  }

  /** What a record with these bytes, at byte `offset` of the source, is parsed to: it has a name; it gets the number in
      its header or, when that is zero, the block's position; and its names are those of its attributes. */
  ghost predicate IsParsedAs(r: seq<byte>, offset: nat, record: MftRecord)
    requires |r| == 1024
  {
    && HasNames(r, record.names) && record.names != [] && record.offset == offset
    && record.recordIdGuess == if U32(r, 0x2C) != 0 then U32(r, 0x2C) else offset / 1024
  }

  lemma ParsedFromIff(input: seq<byte>, offset: nat, record: MftRecord, r: seq<byte>)
    requires RestoredRecord(input) == Some(r)
    ensures ParsedRecord(input, offset) == Some(record) <==> IsParsedAs(r, offset, record)
  {
    WordsAreSums(r, 0x2C);
    WordsAreSums(r, 0x14);
    FlagBits(r, 0x16);
    NamesIff(r, U16(r, 0x14), r[0x16] / 2 % 2 == 1, record.names);
  }

  /** Main result: a block is parsed to a record exactly when it is intact and its bytes are parsed so. */
  lemma ParsedIff(input: seq<byte>, offset: nat, record: MftRecord)
    ensures ParsedRecord(input, offset) == Some(record) <==>
            exists r :: IsRecordIn(r, input) && IsParsedAs(r, offset, record)
  {
    var restored := RestoredRecord(input);
    if restored.Some? {
      RecordInIff(input, restored.value);
      ParsedFromIff(input, offset, record, restored.value);
    }
    if r :| IsRecordIn(r, input) && IsParsedAs(r, offset, record) {
      RecordInIff(input, r);
    }
  }

  /** Main result: the data attributes of a record are those of its attributes that are plain and unnamed and hold a
      payload or a run list; there are none when there is no record. */
  lemma DataAttributesIff(input: seq<byte>, datas: seq<DataAttribute>)
    ensures DataAttributesOf(input) == datas <==>
            || (exists r :: IsRecordIn(r, input) && HasDatas(r, datas))
            || (datas == [] && forall r :: !IsRecordIn(r, input))
  {
    var restored := RestoredRecord(input);
    if restored.Some? {
      var r := restored.value;
      RecordInIff(input, r);
      WordsAreSums(r, 0x14);
      DatasIff(r, U16(r, 0x14), datas);
    }
    forall r | IsRecordIn(r, input)
      ensures restored == Some(r)
    {
      RecordInIff(input, r);
    }
  }
}
