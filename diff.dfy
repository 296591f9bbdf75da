/**
  getDelta: the delta between two serialised messages of one type, field by
  field and occurrence by occurrence, recursing into embedded messages, with
  the choice between the field-level delta and a whole-buffer replacement.
 */
module Diffing {
  import opened Wrappers
  import opened Wire
  import opened Codec
  import opened Delta

  /**
    What getDelta reads besides its two buffers: the descriptor lookup, the
    extension registry, the size of an encoded delta record (the length of
    its protobuf encoding, which the model leaves uninterpreted) and the
    testing hook that forces field-level deltas.
   */
  datatype Env = Env(schema: Schema, registry: Registry, deltaSize: MessageDelta -> nat, alwaysFieldLevel: bool)

  /** The size of a whole-buffer delta: two one-byte headers, two length prefixes and both buffers. */
  function RawLen(oldBuf: seq<byte>, newBuf: seq<byte>): nat {
    2 + SizeVarint(|oldBuf|) + SizeVarint(|newBuf|) + |oldBuf| + |newBuf|
  }

  /** Every occurrence of `ds` is shorter than `size` bytes. */
  predicate ShorterThan(ds: seq<FieldData>, size: nat) {
    forall i | 0 <= i < |ds| :: |ds[i].bytes| < size
  }

  function Max(a: nat, b: nat): nat {
    if a < b then b else a
  }

  // ---------------------------------------------------------------------------
  // The specification

  /** getDelta: None when nothing changed, or the delta, or the first error met. */
  function Diff(env: Env, oldBuf: seq<byte>, newBuf: seq<byte>, desc: Descriptor): Result<Option<MessageDelta>>
    decreases |oldBuf| + |newBuf|, 3, 0
  {
    if oldBuf == newBuf then Success(None)
    else if |newBuf| == 0 then Success(Some(MessageDelta(Flags(false, OldUnspecified, NewIsEmptyBytes), oldBuf, [], [])))
    else if |oldBuf| == 0 then Success(Some(MessageDelta(Flags(false, OldIsEmptyBytes, NewUnspecified), [], newBuf, [])))
    else
      match Parse(oldBuf)
      case Failure(e) => Failure(e)
      case Success(om) =>
        match Parse(newBuf)
        case Failure(e) => Failure(e)
        case Success(nm) =>
          ParsedWellFormed(oldBuf);
          ParsedWellFormed(newBuf);
          match NumbersEntries(env, desc, om, nm, om.Keys + nm.Keys, |oldBuf|, |newBuf|)
          case Failure(e) => Failure(e)
          case Success(fields) => Success(Choose(env, oldBuf, newBuf, fields))
  }

  /**
    The end of getDelta: no entries means no change; otherwise the
    field-level delta when its encoding is smaller than the whole-buffer one
    (or the hook forces it), else the whole-buffer delta.
   */
  function Choose(env: Env, oldBuf: seq<byte>, newBuf: seq<byte>, fields: seq<FieldDelta>): Option<MessageDelta> {
    if fields == [] then None
    else
      var fieldLevel := MessageDelta(NoFlags, [], [], fields);
      if env.deltaSize(fieldLevel) < RawLen(oldBuf, newBuf) || env.alwaysFieldLevel then Some(fieldLevel)
      else Some(MessageDelta(NoFlags, oldBuf, newBuf, []))
  }

  /** The entries of the field numbers `nums`, smallest number first. */
  function NumbersEntries(env: Env, desc: Descriptor, om: FieldMap, nm: FieldMap, nums: set<int32>, ob: nat, nb: nat): Result<seq<FieldDelta>>
    requires WellFormedMap(om, ob) && WellFormedMap(nm, nb)
    decreases ob + nb, 2, nums
  {
    if nums == {} then Success([])
    else
      var k := MinOf(nums);
      match IndexEntries(env, desc, k, Get(om, k), Get(nm, k), 0, ob, nb)
      case Failure(e) => Failure(e)
      case Success(es) => Prepend(es, NumbersEntries(env, desc, om, nm, nums - {k}, ob, nb))
  }

  /** The entries of field `k` from occurrence `i` on, up to the longer of the two occurrence lists. */
  function IndexEntries(env: Env, desc: Descriptor, k: int32, olds: seq<FieldData>, news: seq<FieldData>, i: nat, ob: nat, nb: nat): Result<seq<FieldDelta>>
    requires ShorterThan(olds, ob) && ShorterThan(news, nb)
    decreases ob + nb, 1, Max(|olds|, |news|) - i
  {
    if i >= Max(|olds|, |news|) then Success([])
    else
      match PositionEntry(env, desc, k, olds, news, i, ob, nb)
      case Failure(e) => Failure(e)
      case Success(es) => Prepend(es, IndexEntries(env, desc, k, olds, news, i + 1, ob, nb))
  }

  /**
    The entry for occurrence `i` of field `k` (none, or one): an occurrence
    only in `news` is recorded with OLD_IS_NOT_SET, one only in `olds` with
    NEW_IS_NOT_SET; equal occurrences give nothing; differing ones recurse
    when the field is an embedded message, and are recorded both ways
    otherwise.
   */
  function PositionEntry(env: Env, desc: Descriptor, k: int32, olds: seq<FieldData>, news: seq<FieldData>, i: nat, ob: nat, nb: nat): Result<seq<FieldDelta>>
    requires ShorterThan(olds, ob) && ShorterThan(news, nb) && i < Max(|olds|, |news|)
    decreases ob + nb, 0, 0
  {
    var f := Blank(k, i);
    if i >= |olds| then
      var g := SetNew(f, news[i]);
      Success([g.(flags := g.flags.(oldSide := OldIsNotSet))])
    else if i >= |news| then
      var g := SetOld(f, olds[i]);
      Success([g.(flags := g.flags.(newSide := NewIsNotSet))])
    else if FieldDataEqual(olds[i], news[i]) then Success([])
    else
      var sub := Resolve(env.schema, env.registry, desc, k);
      if sub.None? then Success([SetNew(SetOld(f, olds[i]), news[i])])
      else if news[i].typ != BytesType || olds[i].typ != BytesType then Failure(InvalidEmbeddedType)
      else
        match Diff(env, olds[i].bytes, news[i].bytes, sub.value)
        case Failure(e) => Failure(e)
        case Success(m) => if m.None? then Success([]) else Success([Fold(f, m.value)])
  }

  /** A nested message delta folded into its field's record: flags, fields and both buffers carried over. */
  function Fold(f: FieldDelta, m: MessageDelta): (r: FieldDelta)
    ensures r.number == f.number && r.index == f.index && r.oldIndex == f.oldIndex && r.newIndex == f.newIndex
  {
    f.(flags := m.flags, fields := m.fields, oldBytes := m.oldBytes, newBytes := m.newBytes)
  }

  // ---------------------------------------------------------------------------
  // The algorithm

  /** getDelta, as the source computes it. */
  method GetDelta(env: Env, oldBuf: seq<byte>, newBuf: seq<byte>, desc: Descriptor) returns (r: Result<Option<MessageDelta>>)
    ensures r == Diff(env, oldBuf, newBuf, desc)
    decreases |oldBuf| + |newBuf|, 3, 0
  {
    if oldBuf == newBuf {
      return Success(None);
    }
    if |newBuf| == 0 {
      return Success(Some(MessageDelta(Flags(false, OldUnspecified, NewIsEmptyBytes), oldBuf, [], [])));
    }
    if |oldBuf| == 0 {
      return Success(Some(MessageDelta(Flags(false, OldIsEmptyBytes, NewUnspecified), [], newBuf, [])));
    }
    var om := ParseMessage(oldBuf);
    if om.Failure? {
      return Failure(om.error);
    }
    var nm := ParseMessage(newBuf);
    if nm.Failure? {
      return Failure(nm.error);
    }
    ParsedWellFormed(oldBuf);
    ParsedWellFormed(newBuf);
    var fields := CollectEntries(env, desc, om.value, nm.value, |oldBuf|, |newBuf|);
    if fields.Failure? {
      return Failure(fields.error);
    }
    if fields.value == [] {
      return Success(None);
    }
    var sorted := SortEntries(env, desc, om.value, nm.value, |oldBuf|, |newBuf|, fields.value);
    var fieldLevel := MessageDelta(NoFlags, [], [], sorted);
    var rawLen := 2 + SizeVarint(|oldBuf|) + SizeVarint(|newBuf|) + |oldBuf| + |newBuf|;
    if env.deltaSize(fieldLevel) < rawLen || env.alwaysFieldLevel {
      return Success(Some(fieldLevel));
    }
    r := Success(Some(MessageDelta(NoFlags, oldBuf, newBuf, [])));
  }

  /** The loop over all field numbers of either side (taken in ascending order), appending each number's entries. */
  method CollectEntries(env: Env, desc: Descriptor, om: FieldMap, nm: FieldMap, ob: nat, nb: nat) returns (r: Result<seq<FieldDelta>>)
    requires WellFormedMap(om, ob) && WellFormedMap(nm, nb)
    ensures r == NumbersEntries(env, desc, om, nm, om.Keys + nm.Keys, ob, nb)
    decreases ob + nb, 2, 0
  {
    var all := om.Keys + nm.Keys;
    var fields: seq<FieldDelta> := [];
    var rest := all;
    PrependNothing(NumbersEntries(env, desc, om, nm, all, ob, nb));
    while rest != {}
      invariant rest <= all
      invariant NumbersEntries(env, desc, om, nm, all, ob, nb) == Prepend(fields, NumbersEntries(env, desc, om, nm, rest, ob, nb))
      decreases rest
    {
      var num := MinOf(rest);
      var es := NumberEntries(env, desc, num, Get(om, num), Get(nm, num), ob, nb);
      if es.Failure? {
        assert NumbersEntries(env, desc, om, nm, rest, ob, nb) == Failure(es.error);
        return Failure(es.error);
      }
      PrependTwice(fields, es.value, NumbersEntries(env, desc, om, nm, rest - {num}, ob, nb));
      fields := fields + es.value;
      rest := rest - {num};
    }
    assert fields + [] == fields;
    r := Success(fields);
  }

  /** The inner loop: occurrence indices 0 up to the longer of the two lists. */
  method NumberEntries(env: Env, desc: Descriptor, num: int32, olds: seq<FieldData>, news: seq<FieldData>, ob: nat, nb: nat) returns (r: Result<seq<FieldDelta>>)
    requires ShorterThan(olds, ob) && ShorterThan(news, nb)
    ensures r == IndexEntries(env, desc, num, olds, news, 0, ob, nb)
    decreases ob + nb, 1, 0
  {
    var maxLen := |olds|;
    if |news| > maxLen {
      maxLen := |news|;
    }
    var fields: seq<FieldDelta> := [];
    var i := 0;
    PrependNothing(IndexEntries(env, desc, num, olds, news, 0, ob, nb));
    while i < maxLen
      invariant 0 <= i <= maxLen && maxLen == Max(|olds|, |news|)
      invariant IndexEntries(env, desc, num, olds, news, 0, ob, nb) == Prepend(fields, IndexEntries(env, desc, num, olds, news, i, ob, nb))
    {
      var es := Position(env, desc, num, olds, news, i, ob, nb);
      if es.Failure? {
        assert IndexEntries(env, desc, num, olds, news, i, ob, nb) == Failure(es.error);
        return Failure(es.error);
      }
      PrependTwice(fields, es.value, IndexEntries(env, desc, num, olds, news, i + 1, ob, nb));
      fields := fields + es.value;
      i := i + 1;
    }
    assert fields + [] == fields;
    r := Success(fields);
  }

  /** The body of the inner loop for occurrence `i`. */
  method Position(env: Env, desc: Descriptor, num: int32, olds: seq<FieldData>, news: seq<FieldData>, i: nat, ob: nat, nb: nat) returns (r: Result<seq<FieldDelta>>)
    requires ShorterThan(olds, ob) && ShorterThan(news, nb) && i < Max(|olds|, |news|)
    ensures r == PositionEntry(env, desc, num, olds, news, i, ob, nb)
    decreases ob + nb, 0, 0
  {
    var field := Blank(num, i);
    if i >= |olds| {
      field := SetNew(field, news[i]);
      field := field.(flags := field.flags.(oldSide := OldIsNotSet));
      return Success([field]);
    }
    if i >= |news| {
      field := SetOld(field, olds[i]);
      field := field.(flags := field.flags.(newSide := NewIsNotSet));
      return Success([field]);
    }
    if FieldDataEqual(olds[i], news[i]) {
      return Success([]);
    }
    var sub := ResolveEmbedded(env.schema, env.registry, desc, num);
    if sub.Some? {
      if news[i].typ != BytesType || olds[i].typ != BytesType {
        return Failure(InvalidEmbeddedType);
      }
      var message := GetDelta(env, olds[i].bytes, news[i].bytes, sub.value);
      if message.Failure? {
        return Failure(message.error);
      }
      if message.value.None? {
        return Success([]);
      }
      return Success([Fold(field, message.value.value)]);
    }
    field := SetOld(field, olds[i]);
    field := SetNew(field, news[i]);
    r := Success([field]);
  }

  /** sort.Sort on the collected entries; they come out as collected, which is already in order. */
  method SortEntries(env: Env, desc: Descriptor, om: FieldMap, nm: FieldMap, ob: nat, nb: nat, fields: seq<FieldDelta>) returns (sorted: seq<FieldDelta>)
    requires WellFormedMap(om, ob) && WellFormedMap(nm, nb)
    requires NumbersEntries(env, desc, om, nm, om.Keys + nm.Keys, ob, nb) == Success(fields)
    ensures sorted == fields
  {
    var a := new FieldDelta[|fields|](i requires 0 <= i < |fields| => fields[i]);
    assert a[..] == fields;
    SortByNumberIndex(a);
    sorted := a[..];
    EntriesStrictlySorted(env, desc, om, nm, om.Keys + nm.Keys, ob, nb);
    SortedPermutationUnique(fields, sorted);
  }

  // ---------------------------------------------------------------------------
  // Order of the entries

  /** What every entry of field `k` from index `i` on looks like: its number, an index at or after `i`, no remapping. */
  predicate EntriesOf(es: seq<FieldDelta>, k: int32, lo: int) {
    forall j | 0 <= j < |es| :: es[j].number == k && es[j].index >= lo && es[j].oldIndex == 0 && es[j].newIndex == 0
  }

  /** Strictly increasing indices. */
  predicate IncreasingIndex(es: seq<FieldDelta>) {
    forall a, b | 0 <= a < b < |es| :: es[a].index < es[b].index
  }

  lemma PositionEntryShape(env: Env, desc: Descriptor, k: int32, olds: seq<FieldData>, news: seq<FieldData>, i: nat, ob: nat, nb: nat)
    requires ShorterThan(olds, ob) && ShorterThan(news, nb) && i < Max(|olds|, |news|)
    requires PositionEntry(env, desc, k, olds, news, i, ob, nb).Success?
    ensures |PositionEntry(env, desc, k, olds, news, i, ob, nb).value| <= 1
    ensures EntriesOf(PositionEntry(env, desc, k, olds, news, i, ob, nb).value, k, i)
    ensures forall e | e in PositionEntry(env, desc, k, olds, news, i, ob, nb).value :: e.index == i
  {
  }

  /** The entries of one field number carry that number, strictly increasing indices from `i` on, and no remapping. */
  lemma {:induction false} IndexEntriesShape(env: Env, desc: Descriptor, k: int32, olds: seq<FieldData>, news: seq<FieldData>, i: nat, ob: nat, nb: nat)
    requires ShorterThan(olds, ob) && ShorterThan(news, nb)
    requires IndexEntries(env, desc, k, olds, news, i, ob, nb).Success?
    ensures EntriesOf(IndexEntries(env, desc, k, olds, news, i, ob, nb).value, k, i)
    ensures IncreasingIndex(IndexEntries(env, desc, k, olds, news, i, ob, nb).value)
    decreases Max(|olds|, |news|) - i
  {
    if i < Max(|olds|, |news|) {
      var head := PositionEntry(env, desc, k, olds, news, i, ob, nb).value;
      PositionEntryShape(env, desc, k, olds, news, i, ob, nb);
      IndexEntriesShape(env, desc, k, olds, news, i + 1, ob, nb);
      var tail := IndexEntries(env, desc, k, olds, news, i + 1, ob, nb).value;
      JoinIndex(head, tail, k, i);
    }
  }

  lemma JoinIndex(head: seq<FieldDelta>, tail: seq<FieldDelta>, k: int32, i: int)
    requires |head| <= 1 && EntriesOf(head, k, i) && (forall e | e in head :: e.index == i)
    requires EntriesOf(tail, k, i + 1) && IncreasingIndex(tail)
    ensures EntriesOf(head + tail, k, i) && IncreasingIndex(head + tail)
  {
    var all := head + tail;
    forall a, b | 0 <= a < b < |all|
      ensures all[a].index < all[b].index
    {
      if a < |head| {
        assert all[a] in head;
      }
    }
  }

  /**
    The collected entries are strictly sorted by sortByNumberIndex: numbers
    ascending, and within a number indices ascending, with every entry's
    number among `nums`.
   */
  lemma {:induction false} EntriesStrictlySorted(env: Env, desc: Descriptor, om: FieldMap, nm: FieldMap, nums: set<int32>, ob: nat, nb: nat)
    requires WellFormedMap(om, ob) && WellFormedMap(nm, nb)
    requires NumbersEntries(env, desc, om, nm, nums, ob, nb).Success?
    ensures StrictlySorted(NumbersEntries(env, desc, om, nm, nums, ob, nb).value)
    ensures forall e | e in NumbersEntries(env, desc, om, nm, nums, ob, nb).value :: e.number in nums
    decreases nums
  {
    if nums != {} {
      var k := MinOf(nums);
      var head := IndexEntries(env, desc, k, Get(om, k), Get(nm, k), 0, ob, nb).value;
      IndexEntriesShape(env, desc, k, Get(om, k), Get(nm, k), 0, ob, nb);
      EntriesStrictlySorted(env, desc, om, nm, nums - {k}, ob, nb);
      var tail := NumbersEntries(env, desc, om, nm, nums - {k}, ob, nb).value;
      JoinNumbers(head, tail, k, nums);
    }
  }

  lemma JoinNumbers(head: seq<FieldDelta>, tail: seq<FieldDelta>, k: int32, nums: set<int32>)
    requires k in nums && forall x | x in nums :: k <= x
    requires EntriesOf(head, k, 0) && IncreasingIndex(head)
    requires StrictlySorted(tail) && forall e | e in tail :: e.number in nums - {k}
    ensures StrictlySorted(head + tail) && forall e | e in head + tail :: e.number in nums
  {
    var all := head + tail;
    forall a, b | 0 <= a < b < |all|
      ensures Less(all[a], all[b])
    {
      if b < |head| {
        assert all[a] == head[a] && all[b] == head[b];
      } else if a < |head| {
        assert all[b] in tail;
      } else {
        assert all[a] == tail[a - |head|] && all[b] == tail[b - |head|];
      }
    }
  }

  // ---------------------------------------------------------------------------
  // Alignment

  /** Occurrence `j` of a field is missing on one side or differs between the two sides. */
  predicate Differs(olds: seq<FieldData>, news: seq<FieldData>, j: int) {
    0 <= j < Max(|olds|, |news|) && (j >= |olds| || j >= |news| || olds[j] != news[j])
  }

  /**
    Occurrence i gives at most one entry, only where the two sides differ;
    for a field that is not an embedded message, exactly where they differ.
    An occurrence present only on one side is flagged as not set on the other.
   */
  lemma PositionEntryAligned(env: Env, desc: Descriptor, k: int32, olds: seq<FieldData>, news: seq<FieldData>, i: nat, ob: nat, nb: nat)
    requires ShorterThan(olds, ob) && ShorterThan(news, nb) && i < Max(|olds|, |news|)
    requires PositionEntry(env, desc, k, olds, news, i, ob, nb).Success?
    ensures var es := PositionEntry(env, desc, k, olds, news, i, ob, nb).value;
      (es != [] ==> Differs(olds, news, i)) &&
      (Resolve(env.schema, env.registry, desc, k).None? && Differs(olds, news, i) ==> es != []) &&
      (i >= |olds| ==> es != [] && es[0].flags.oldSide == OldIsNotSet) &&
      (i >= |news| ==> es != [] && es[0].flags.newSide == NewIsNotSet)
  {
  }

  /** The entries of field `k` from occurrence `i` on: one per differing occurrence (all of them when `k` is not embedded). */
  lemma {:induction false} IndexEntriesAligned(env: Env, desc: Descriptor, k: int32, olds: seq<FieldData>, news: seq<FieldData>, i: nat, ob: nat, nb: nat)
    requires ShorterThan(olds, ob) && ShorterThan(news, nb)
    requires IndexEntries(env, desc, k, olds, news, i, ob, nb).Success?
    ensures var es := IndexEntries(env, desc, k, olds, news, i, ob, nb).value;
      (forall e | e in es :: i <= e.index && Differs(olds, news, e.index)) &&
      (Resolve(env.schema, env.registry, desc, k).None? ==>
        forall j | i <= j && Differs(olds, news, j) :: exists e | e in es :: e.index == j)
    decreases Max(|olds|, |news|) - i
  {
    if i < Max(|olds|, |news|) {
      var head := PositionEntry(env, desc, k, olds, news, i, ob, nb).value;
      PositionEntryAligned(env, desc, k, olds, news, i, ob, nb);
      PositionEntryShape(env, desc, k, olds, news, i, ob, nb);
      IndexEntriesAligned(env, desc, k, olds, news, i + 1, ob, nb);
      var tail := IndexEntries(env, desc, k, olds, news, i + 1, ob, nb).value;
      var es := head + tail;
      assert IndexEntries(env, desc, k, olds, news, i, ob, nb).value == es;
      forall e | e in es
        ensures i <= e.index && Differs(olds, news, e.index)
      {
        if e in head {
          assert e == head[0];
        }
      }
      if Resolve(env.schema, env.registry, desc, k).None? {
        forall j | i <= j && Differs(olds, news, j)
          ensures exists e | e in es :: e.index == j
        {
          if j == i {
            assert head[0] in es;
          } else {
            var e :| e in tail && e.index == j;
            assert e in es;
          }
        }
      }
    }
  }

  /** Each entry names a field number of `nums` and an occurrence where the two sides differ. */
  ghost predicate OnlyDiffering(es: seq<FieldDelta>, om: FieldMap, nm: FieldMap, nums: set<int32>) {
    forall e | e in es :: e.number in nums && Differs(Get(om, e.number), Get(nm, e.number), e.index)
  }

  /** Every differing occurrence of a number of `nums` that is not an embedded message has an entry. */
  ghost predicate CoversDiffering(es: seq<FieldDelta>, env: Env, desc: Descriptor, om: FieldMap, nm: FieldMap, nums: set<int32>) {
    forall k, j | k in nums && Resolve(env.schema, env.registry, desc, k).None? && Differs(Get(om, k), Get(nm, k), j) ::
      exists e | e in es :: e.number == k && e.index == j
  }

  /**
    The entries getDelta collects: each names a field number of either side
    and an occurrence where the two sides differ, and every differing
    occurrence of a field that is not an embedded message has its entry.
   */
  lemma {:induction false} EntriesAligned(env: Env, desc: Descriptor, om: FieldMap, nm: FieldMap, nums: set<int32>, ob: nat, nb: nat)
    requires WellFormedMap(om, ob) && WellFormedMap(nm, nb)
    requires NumbersEntries(env, desc, om, nm, nums, ob, nb).Success?
    ensures OnlyDiffering(NumbersEntries(env, desc, om, nm, nums, ob, nb).value, om, nm, nums)
    ensures CoversDiffering(NumbersEntries(env, desc, om, nm, nums, ob, nb).value, env, desc, om, nm, nums)
    decreases nums
  {
    if nums != {} {
      var k := MinOf(nums);
      var olds, news := Get(om, k), Get(nm, k);
      var head := IndexEntries(env, desc, k, olds, news, 0, ob, nb).value;
      IndexEntriesAligned(env, desc, k, olds, news, 0, ob, nb);
      IndexEntriesShape(env, desc, k, olds, news, 0, ob, nb);
      EntriesAligned(env, desc, om, nm, nums - {k}, ob, nb);
      var tail := NumbersEntries(env, desc, om, nm, nums - {k}, ob, nb).value;
      assert NumbersEntries(env, desc, om, nm, nums, ob, nb).value == head + tail;
      JoinAligned(env, desc, om, nm, nums, k, head, tail);
    }
  }

  lemma JoinAligned(env: Env, desc: Descriptor, om: FieldMap, nm: FieldMap, nums: set<int32>, k: int32, head: seq<FieldDelta>, tail: seq<FieldDelta>)
    requires k in nums && EntriesOf(head, k, 0)
    requires forall e | e in head :: Differs(Get(om, k), Get(nm, k), e.index)
    requires Resolve(env.schema, env.registry, desc, k).None? ==>
      forall j | 0 <= j && Differs(Get(om, k), Get(nm, k), j) :: exists e | e in head :: e.index == j
    requires OnlyDiffering(tail, om, nm, nums - {k}) && CoversDiffering(tail, env, desc, om, nm, nums - {k})
    ensures OnlyDiffering(head + tail, om, nm, nums) && CoversDiffering(head + tail, env, desc, om, nm, nums)
  {
    var es := head + tail;
    forall e | e in es
      ensures e.number in nums && Differs(Get(om, e.number), Get(nm, e.number), e.index)
    {
      if e in head {
        var a :| 0 <= a < |head| && head[a] == e;
      }
    }
    forall k', j | k' in nums && Resolve(env.schema, env.registry, desc, k').None? && Differs(Get(om, k'), Get(nm, k'), j)
      ensures exists e | e in es :: e.number == k' && e.index == j
    {
      if k' == k {
        var e :| e in head && e.index == j;
        var a :| 0 <= a < |head| && head[a] == e;
        assert e in es;
      } else {
        var e :| e in tail && e.number == k' && e.index == j;
        assert e in es;
      }
    }
  }

  // ---------------------------------------------------------------------------
  // The result

  /** The trivial cases: equal buffers give no delta, an empty side gives a whole-buffer delta carrying the other. */
  lemma DiffTrivialCases(env: Env, oldBuf: seq<byte>, newBuf: seq<byte>, desc: Descriptor)
    ensures oldBuf == newBuf ==> Diff(env, oldBuf, newBuf, desc) == Success(None)
    ensures oldBuf != newBuf && newBuf == [] ==>
      Diff(env, oldBuf, newBuf, desc) == Success(Some(MessageDelta(Flags(false, OldUnspecified, NewIsEmptyBytes), oldBuf, [], [])))
    ensures oldBuf != newBuf && newBuf != [] && oldBuf == [] ==>
      Diff(env, oldBuf, newBuf, desc) == Success(Some(MessageDelta(Flags(false, OldIsEmptyBytes, NewUnspecified), [], newBuf, [])))
  {
  }

  /**
    The size rule: for two different non-empty buffers, both parse and
    getDelta collects the entries of all their field numbers, strictly
    sorted; no entries
    means no delta; otherwise the field-level delta is returned exactly when
    its encoded size is below RawLen or the hook is set, and the whole-buffer
    delta carrying both buffers is returned otherwise.
   */
  lemma SizeRule(env: Env, oldBuf: seq<byte>, newBuf: seq<byte>, desc: Descriptor) returns (fields: seq<FieldDelta>)
    requires oldBuf != newBuf && oldBuf != [] && newBuf != [] && Diff(env, oldBuf, newBuf, desc).Success?
    ensures Parse(oldBuf).Success? && Parse(newBuf).Success?
    ensures WellFormedMap(Parse(oldBuf).value, |oldBuf|) && WellFormedMap(Parse(newBuf).value, |newBuf|)
    ensures NumbersEntries(env, desc, Parse(oldBuf).value, Parse(newBuf).value,
      Parse(oldBuf).value.Keys + Parse(newBuf).value.Keys, |oldBuf|, |newBuf|) == Success(fields)
    ensures StrictlySorted(fields)
    ensures fields == [] <==> Diff(env, oldBuf, newBuf, desc).value.None?
    ensures fields != [] ==>
      (Diff(env, oldBuf, newBuf, desc).value == Some(MessageDelta(NoFlags, [], [], fields)) <==>
        env.deltaSize(MessageDelta(NoFlags, [], [], fields)) < RawLen(oldBuf, newBuf) || env.alwaysFieldLevel)
    ensures fields != [] && Diff(env, oldBuf, newBuf, desc).value != Some(MessageDelta(NoFlags, [], [], fields)) ==>
      Diff(env, oldBuf, newBuf, desc).value == Some(MessageDelta(NoFlags, oldBuf, newBuf, []))
  {
    var om, nm := Parse(oldBuf).value, Parse(newBuf).value;
    ParsedWellFormed(oldBuf);
    ParsedWellFormed(newBuf);
    fields := NumbersEntries(env, desc, om, nm, om.Keys + nm.Keys, |oldBuf|, |newBuf|).value;
    EntriesStrictlySorted(env, desc, om, nm, om.Keys + nm.Keys, |oldBuf|, |newBuf|);
    assert Diff(env, oldBuf, newBuf, desc) == Success(Choose(env, oldBuf, newBuf, fields));
  }
}
