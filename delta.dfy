/**
  The delta records the engine produces and consumes (pdeltapb.Message and
  pdeltapb.Field), the helpers that fill them in (setOld, setNew), their sort
  order (sortByNumberIndex), and the resolution of embedded-message
  descriptors through a descriptor lookup and the extension registry.
 */
module Delta {
  import opened Wrappers
  import opened Wire
  import opened Codec

  // ---------------------------------------------------------------------------
  // Flags

  /** The old-side part of a flag word: how the old occurrence looked when it carried no value. */
  datatype OldFlag =
    | OldUnspecified
    | OldIsNotSet
    | OldIsEmptyBytes
    | OldIsDefaultVarint
    | OldIsDefaultFixed32
    | OldIsDefaultFixed64

  /**
    The new-side part of a flag word (the bits under NEW_FLAG_MASK). NewUnknown
    stands for any bit pattern under the mask that names none of the others.
   */
  datatype NewFlag =
    | NewUnspecified
    | NewIsNotSet
    | NewIsEmptyBytes
    | NewIsDefaultVarint
    | NewIsDefaultFixed32
    | NewIsDefaultFixed64
    | NewIsSetElsewhere
    | NewUnknown

  /**
    A flag word of a field or message delta. `unchangedMarker` is the UNCHANGED
    marker, which lies outside the new-side mask; the word equals UNCHANGED
    when the marker is its only content. Message flags and field flags share
    this vocabulary: a message's flags are copied into a field's flags as they are.
   */
  datatype Flags = Flags(unchangedMarker: bool, oldSide: OldFlag, newSide: NewFlag)

  const NoFlags: Flags := Flags(false, OldUnspecified, NewUnspecified)
  const Unchanged: Flags := Flags(true, OldUnspecified, NewUnspecified)

  // ---------------------------------------------------------------------------
  // Delta records

  /**
    One field-level edit (pdeltapb.Field): the occurrence `index` of field
    `number`, the flags, the explicit old and new values, and nested edits
    when the field is an embedded message.
   */
  datatype FieldDelta = FieldDelta(
    number: int32, index: int, oldIndex: int, newIndex: int, flags: Flags,
    oldBytes: seq<byte>, oldVarint: uint64, oldFixed32: uint32, oldFixed64: uint64,
    newBytes: seq<byte>, newVarint: uint64, newFixed32: uint32, newFixed64: uint64,
    fields: seq<FieldDelta>)

  /** A whole-message delta (pdeltapb.Message): flags, whole old and new buffers, or field edits. */
  datatype MessageDelta = MessageDelta(flags: Flags, oldBytes: seq<byte>, newBytes: seq<byte>, fields: seq<FieldDelta>)

  /**
    A freshly allocated field record: only Number and Index set. Its ensures
    only unfolds it; PositionEntryShape says what getDelta's entries carry.
   */
  function Blank(number: int32, index: int): (f: FieldDelta)
    ensures f.number == number && f.index == index && f.oldIndex == 0 && f.newIndex == 0
    ensures f.flags == NoFlags && f.fields == []
  {
    FieldDelta(number, index, 0, 0, NoFlags, [], 0, 0, 0, [], 0, 0, 0, [])
  }

  // ---------------------------------------------------------------------------
  // setOld and setNew

  /**
    setOld: records the old occurrence in `f`, as a flag when it is empty or
    zero and as a value otherwise. For fixed32 and fixed64 occurrences the
    zero test reads the varint member, as the source does.
   */
  function SetOld(f: FieldDelta, d: FieldData): (r: FieldDelta)
    ensures r.number == f.number && r.index == f.index && r.fields == f.fields
    ensures r.flags.unchangedMarker == f.flags.unchangedMarker && r.flags.newSide == f.flags.newSide
    ensures r.newBytes == f.newBytes && r.newVarint == f.newVarint
    ensures r.newFixed32 == f.newFixed32 && r.newFixed64 == f.newFixed64
  {
    match d.typ
    case BytesType =>
      if |d.bytes| == 0 then f.(flags := f.flags.(oldSide := OldIsEmptyBytes)) else f.(oldBytes := d.bytes)
    case VarintType =>
      if d.varint == 0 then f.(flags := f.flags.(oldSide := OldIsDefaultVarint)) else f.(oldVarint := d.varint)
    case Fixed32Type =>
      if d.varint == 0 then f.(flags := f.flags.(oldSide := OldIsDefaultFixed32)) else f.(oldFixed32 := d.fixed32)
    case Fixed64Type =>
      if d.varint == 0 then f.(flags := f.flags.(oldSide := OldIsDefaultFixed64)) else f.(oldFixed64 := d.fixed64)
  }

  /** setNew: the new-side counterpart of setOld, with the same varint-member test. */
  function SetNew(f: FieldDelta, d: FieldData): (r: FieldDelta)
    ensures r.number == f.number && r.index == f.index && r.fields == f.fields
    ensures r.flags.unchangedMarker == f.flags.unchangedMarker && r.flags.oldSide == f.flags.oldSide
    ensures r.oldBytes == f.oldBytes && r.oldVarint == f.oldVarint
    ensures r.oldFixed32 == f.oldFixed32 && r.oldFixed64 == f.oldFixed64
  {
    match d.typ
    case BytesType =>
      if |d.bytes| == 0 then f.(flags := f.flags.(newSide := NewIsEmptyBytes)) else f.(newBytes := d.bytes)
    case VarintType =>
      if d.varint == 0 then f.(flags := f.flags.(newSide := NewIsDefaultVarint)) else f.(newVarint := d.varint)
    case Fixed32Type =>
      if d.varint == 0 then f.(flags := f.flags.(newSide := NewIsDefaultFixed32)) else f.(newFixed32 := d.fixed32)
    case Fixed64Type =>
      if d.varint == 0 then f.(flags := f.flags.(newSide := NewIsDefaultFixed64)) else f.(newFixed64 := d.fixed64)
  }

  /**
    What SetNew records of a bytes or varint occurrence on a blank record:
    the value when it is non-empty or non-zero, and the matching default flag
    otherwise, with nothing else set.
   */
  lemma SetNewRecords(f: FieldDelta, d: FieldData)
    requires Canonical(d) && (d.typ == BytesType || d.typ == VarintType)
    requires f.flags.newSide == NewUnspecified && f.newBytes == [] && f.newVarint == 0
    requires f.newFixed32 == 0 && f.newFixed64 == 0
    ensures d.typ == BytesType ==>
      (SetNew(f, d).flags.newSide == (if d.bytes == [] then NewIsEmptyBytes else NewUnspecified)) &&
      SetNew(f, d).newBytes == d.bytes && SetNew(f, d).newVarint == 0
    ensures d.typ == VarintType ==>
      (SetNew(f, d).flags.newSide == (if d.varint == 0 then NewIsDefaultVarint else NewUnspecified)) &&
      SetNew(f, d).newBytes == [] && SetNew(f, d).newVarint == d.varint
    ensures SetNew(f, d).newFixed32 == 0 && SetNew(f, d).newFixed64 == 0
  {
  }

  /**
    What SetOld records of a bytes or varint occurrence on a blank record:
    the value when it is non-empty or non-zero, and the matching default flag
    otherwise, with nothing else set.
   */
  lemma SetOldRecords(f: FieldDelta, d: FieldData)
    requires Canonical(d) && (d.typ == BytesType || d.typ == VarintType)
    requires f.flags.oldSide == OldUnspecified && f.oldBytes == [] && f.oldVarint == 0
    requires f.oldFixed32 == 0 && f.oldFixed64 == 0
    ensures d.typ == BytesType ==>
      (SetOld(f, d).flags.oldSide == (if d.bytes == [] then OldIsEmptyBytes else OldUnspecified)) &&
      SetOld(f, d).oldBytes == d.bytes && SetOld(f, d).oldVarint == 0
    ensures d.typ == VarintType ==>
      (SetOld(f, d).flags.oldSide == (if d.varint == 0 then OldIsDefaultVarint else OldUnspecified)) &&
      SetOld(f, d).oldBytes == [] && SetOld(f, d).oldVarint == d.varint
    ensures SetOld(f, d).oldFixed32 == 0 && SetOld(f, d).oldFixed64 == 0
  {
  }

  /**
    A parsed fixed32 occurrence always has a zero varint member, so SetNew
    records it as the default whatever its value: the value is lost.
   */
  lemma Fixed32ValueIsLost(f: FieldDelta, v: uint32)
    ensures SetNew(f, Fixed32Field(v)).flags.newSide == NewIsDefaultFixed32
    ensures SetNew(f, Fixed32Field(v)).newFixed32 == f.newFixed32
    ensures SetOld(f, Fixed32Field(v)).flags.oldSide == OldIsDefaultFixed32
    ensures SetOld(f, Fixed32Field(v)).oldFixed32 == f.oldFixed32
  {
  }

  /** The fixed64 counterpart of Fixed32ValueIsLost. */
  lemma Fixed64ValueIsLost(f: FieldDelta, v: uint64)
    ensures SetNew(f, Fixed64Field(v)).flags.newSide == NewIsDefaultFixed64
    ensures SetNew(f, Fixed64Field(v)).newFixed64 == f.newFixed64
    ensures SetOld(f, Fixed64Field(v)).flags.oldSide == OldIsDefaultFixed64
    ensures SetOld(f, Fixed64Field(v)).oldFixed64 == f.oldFixed64
  {
  }

  // ---------------------------------------------------------------------------
  // sortByNumberIndex

  /** sortByNumberIndex.Less: by Number, then Index, then OldIndex, then NewIndex. */
  predicate Less(a: FieldDelta, b: FieldDelta) {
    if a.number == b.number then
      if a.index == b.index then
        if a.oldIndex == b.oldIndex then a.newIndex < b.newIndex
        else a.oldIndex < b.oldIndex
      else a.index < b.index
    else a.number < b.number
  }

  /** Less is the lexicographic order on (Number, Index, OldIndex, NewIndex): a strict total order on those keys. */
  lemma LessIsStrictOrder(a: FieldDelta, b: FieldDelta, c: FieldDelta)
    ensures !Less(a, a)
    ensures Less(a, b) ==> !Less(b, a)
    ensures Less(a, b) && Less(b, c) ==> Less(a, c)
    ensures !Less(a, b) && !Less(b, a) <==>
      a.number == b.number && a.index == b.index && a.oldIndex == b.oldIndex && a.newIndex == b.newIndex
  {
  }

  /** What sort.Sort guarantees: no element is Less than one before it. */
  predicate Sorted(s: seq<FieldDelta>) {
    forall i, j | 0 <= i < j < |s| :: !Less(s[j], s[i])
  }

  /** Each element Less than every later one: sorted with no two keys equal. */
  predicate StrictlySorted(s: seq<FieldDelta>) {
    forall i, j | 0 <= i < j < |s| :: Less(s[i], s[j])
  }

  /** Sorting a list that is already strictly sorted leaves it as it is: it is its only sorted permutation. */
  lemma {:induction false} SortedPermutationUnique(s: seq<FieldDelta>, t: seq<FieldDelta>)
    requires StrictlySorted(s) && Sorted(t) && multiset(s) == multiset(t)
    ensures s == t
    decreases |s|
  {
    if s != [] {
      HeadsAgree(s, t);
      DropHead(s, t);
      SortedPermutationUnique(s[1..], t[1..]);
      assert s == [s[0]] + s[1..] && t == [t[0]] + t[1..];
    }
  }

  /** The least element of a strictly sorted list is also first in any sorted permutation of it. */
  lemma HeadsAgree(s: seq<FieldDelta>, t: seq<FieldDelta>)
    requires s != [] && StrictlySorted(s) && Sorted(t) && multiset(s) == multiset(t)
    ensures t != [] && s[0] == t[0]
  {
    assert s[0] in multiset(t);
    var m :| 0 <= m < |t| && t[m] == s[0];
    assert t[0] in multiset(s);
    var k :| 0 <= k < |s| && s[k] == t[0];
    LessIsStrictOrder(s[0], s[0], s[0]);
    assert !Less(s[0], t[0]);
  }

  lemma DropHead(s: seq<FieldDelta>, t: seq<FieldDelta>)
    requires s != [] && t != [] && s[0] == t[0] && multiset(s) == multiset(t)
    requires StrictlySorted(s) && Sorted(t)
    ensures multiset(s[1..]) == multiset(t[1..]) && StrictlySorted(s[1..]) && Sorted(t[1..])
  {
    TailMultiset(s);
    TailMultiset(t);
    forall i, j | 0 <= i < j < |s| - 1
      ensures Less(s[1..][i], s[1..][j])
    {
      assert s[1..][i] == s[i + 1] && s[1..][j] == s[j + 1];
    }
    forall i, j | 0 <= i < j < |t| - 1
      ensures !Less(t[1..][j], t[1..][i])
    {
      assert t[1..][i] == t[i + 1] && t[1..][j] == t[j + 1];
    }
  }

  lemma TailMultiset(s: seq<FieldDelta>)
    requires s != []
    ensures multiset(s[1..]) == multiset(s) - multiset([s[0]])
  {
    assert s == [s[0]] + s[1..];
  }

  /** sort.Sort(sortByNumberIndex(a)): an insertion sort of the array in place. */
  method SortByNumberIndex(a: array<FieldDelta>)
    modifies a
    ensures Sorted(a[..]) && multiset(a[..]) == old(multiset(a[..]))
  {
    var i := 0;
    while i < a.Length
      invariant 0 <= i <= a.Length
      invariant Sorted(a[..i]) && multiset(a[..]) == old(multiset(a[..]))
    {
      InsertLast(a, i);
      i := i + 1;
    }
  }

  /** Moves a[i] down to its place among the sorted a[..i]. */
  method InsertLast(a: array<FieldDelta>, i: nat)
    requires i < a.Length && Sorted(a[..i])
    modifies a
    ensures Sorted(a[..i + 1]) && multiset(a[..]) == old(multiset(a[..]))
    ensures a[i + 1..] == old(a[i + 1..])
  {
    var j := i;
    InsertStart(a[..], i);
    while j > 0 && Less(a[j], a[j - 1])
      invariant 0 <= j <= i
      invariant multiset(a[..]) == old(multiset(a[..])) && a[i + 1..] == old(a[i + 1..])
      invariant Inserting(a[..], j, i)
    {
      ghost var s := a[..];
      InsertSwap(s, j, i);
      a[j - 1], a[j] := a[j], a[j - 1];
      assert a[..] == s[j - 1 := s[j]][j := s[j - 1]];
      j := j - 1;
    }
    InsertDone(a[..], j, i);
  }

  /** While a[j] moves down: s[..i + 1] is sorted apart from position j, and nothing after j is Less than s[j]. */
  predicate Inserting(s: seq<FieldDelta>, j: nat, i: nat)
    requires j <= i < |s|
  {
    (forall k, l | 0 <= k < l <= i && l != j && k != j :: !Less(s[l], s[k])) &&
    (forall l | j < l <= i :: !Less(s[l], s[j]))
  }

  lemma InsertStart(s: seq<FieldDelta>, i: nat)
    requires i < |s| && Sorted(s[..i])
    ensures Inserting(s, i, i)
  {
    forall k, l | 0 <= k < l <= i && l != i && k != i
      ensures !Less(s[l], s[k])
    {
      assert s[l] == s[..i][l] && s[k] == s[..i][k];
    }
  }

  lemma InsertSwap(s: seq<FieldDelta>, j: nat, i: nat)
    requires 0 < j <= i < |s| && Inserting(s, j, i) && Less(s[j], s[j - 1])
    ensures Inserting(s[j - 1 := s[j]][j := s[j - 1]], j - 1, i)
    ensures multiset(s[j - 1 := s[j]][j := s[j - 1]]) == multiset(s)
    ensures s[j - 1 := s[j]][j := s[j - 1]][i + 1..] == s[i + 1..]
  {
    LessIsStrictOrder(s[j], s[j - 1], s[j]);
  }

  lemma InsertDone(s: seq<FieldDelta>, j: nat, i: nat)
    requires j <= i < |s| && Inserting(s, j, i) && (j == 0 || !Less(s[j], s[j - 1]))
    ensures Sorted(s[..i + 1])
  {
    forall k, l | 0 <= k < l <= i
      ensures !Less(s[l], s[k])
    {
      if l == j && k < j {
        NotLessTransitive(s[j], s[j - 1], s[k]);
      }
    }
  }

  /** "Not Less" is transitive: the keys of the comparator are totally ordered. */
  lemma NotLessTransitive(a: FieldDelta, b: FieldDelta, c: FieldDelta)
    requires !Less(a, b) && !Less(b, c)
    ensures !Less(a, c)
  {
  }

  // ---------------------------------------------------------------------------
  // Descriptors and the extension registry

  /** A message descriptor, known by its fully-qualified name and a key telling apart descriptors of one name. */
  datatype Descriptor = Descriptor(fullName: string, key: nat)

  /** MessageDescriptor.FieldMessageDescriptor: the embedded message type of a field number, if it has one. */
  type Schema = (Descriptor, int32) -> Option<Descriptor>

  /** extensionMap: extension descriptors by the full name of the message they extend, in registration order. */
  type Registry = map<string, seq<Descriptor>>

  /** RegisterExtension: appends `desc` to the list kept under its full name. */
  function RegisterExtension(registry: Registry, desc: Descriptor): (r: Registry)
    ensures r.Keys == registry.Keys + {desc.fullName}
    ensures r[desc.fullName] == Extensions(registry, desc.fullName) + [desc]
    ensures forall k | k in registry && k != desc.fullName :: r[k] == registry[k]
  {
    registry[desc.fullName := Extensions(registry, desc.fullName) + [desc]]
  }

  /** The extensions registered under `name` (a missing key reads as the empty list). */
  function Extensions(registry: Registry, name: string): seq<Descriptor> {
    if name in registry then registry[name] else []
  }

  /** The first extension of the list that resolves `num`, in registration order. */
  function FirstExtension(schema: Schema, exts: seq<Descriptor>, num: int32): (r: Option<Descriptor>)
    ensures r.None? <==> forall i | 0 <= i < |exts| :: schema(exts[i], num).None?
  {
    if exts == [] then None
    else if schema(exts[0], num).Some? then schema(exts[0], num)
    else
      assert forall i | 1 <= i < |exts| :: exts[i] == exts[1..][i - 1];
      FirstExtension(schema, exts[1..], num)
  }

  /** The extension FirstExtension picks: the first whose lookup answers, all earlier ones answering nothing. */
  lemma {:induction false} FirstExtensionIndex(schema: Schema, exts: seq<Descriptor>, num: int32) returns (i: nat)
    requires FirstExtension(schema, exts, num).Some?
    ensures i < |exts| && schema(exts[i], num) == FirstExtension(schema, exts, num)
    ensures forall j | 0 <= j < i :: schema(exts[j], num).None?
  {
    if schema(exts[0], num).Some? {
      i := 0;
    } else {
      var k := FirstExtensionIndex(schema, exts[1..], num);
      i := k + 1;
      forall j | 0 <= j < i
        ensures schema(exts[j], num).None?
      {
        if j > 0 {
          assert exts[j] == exts[1..][j - 1];
        }
      }
    }
  }

  /**
    The embedded-message descriptor of field `num` of `desc`: the descriptor's
    own answer, else the first extension registered under its full name that
    has one.
   */
  function Resolve(schema: Schema, registry: Registry, desc: Descriptor, num: int32): (r: Option<Descriptor>)
  {
    if schema(desc, num).Some? then schema(desc, num)
    else FirstExtension(schema, Extensions(registry, desc.fullName), num)
  }

  /** getDelta's lookup loop: the descriptor first, then extensions in order until one answers. */
  method ResolveEmbedded(schema: Schema, registry: Registry, desc: Descriptor, num: int32) returns (r: Option<Descriptor>)
    ensures r == Resolve(schema, registry, desc, num)
  {
    r := schema(desc, num);
    var exts := Extensions(registry, desc.fullName);
    var i := 0;
    while r.None? && i < |exts|
      invariant 0 <= i <= |exts|
      invariant r.None? ==> schema(desc, num).None? && FirstExtension(schema, exts[i..], num) == Resolve(schema, registry, desc, num)
      invariant r.Some? ==> r == Resolve(schema, registry, desc, num)
    {
      assert exts[i..][1..] == exts[i + 1..];
      r := schema(exts[i], num);
      i := i + 1;
    }
  }

  /** The descriptor's own answer wins over every registered extension. */
  lemma ResolveOwnFirst(schema: Schema, registry: Registry, desc: Descriptor, num: int32)
    requires schema(desc, num).Some?
    ensures Resolve(schema, registry, desc, num) == schema(desc, num)
  {
  }

  /**
    A field unknown to its own descriptor resolves through an extension
    registered for that descriptor's name, when no earlier registration
    answers for it.
   */
  lemma ResolveThroughExtension(schema: Schema, registry: Registry, desc: Descriptor, ext: Descriptor, num: int32)
    requires ext.fullName == desc.fullName && schema(desc, num).None? && schema(ext, num).Some?
    requires forall i | 0 <= i < |Extensions(registry, desc.fullName)| :: schema(Extensions(registry, desc.fullName)[i], num).None?
    ensures Resolve(schema, RegisterExtension(registry, ext), desc, num) == schema(ext, num)
  {
    var exts := Extensions(registry, desc.fullName);
    var r := RegisterExtension(registry, ext);
    assert Extensions(r, desc.fullName) == exts + [ext];
    var all := exts + [ext];
    assert all[|exts|] == ext;
    assert forall j | 0 <= j < |exts| :: all[j] == exts[j];
    var i := FirstExtensionIndex(schema, all, num);
  }
}
