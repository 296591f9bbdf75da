/**
  applySerialized and applyField: a delta applied to a base buffer. The
  base is parsed, each field-level entry patches the occurrence at its index,
  and the patched map is written back out.
 */
module Patch {
  import opened Wrappers
  import opened Wire
  import opened Codec
  import opened Delta

  /** deltaFieldMap: field number, then occurrence index, to the entry for it. */
  type DeltaMap = map<int32, map<int, FieldDelta>>

  // ---------------------------------------------------------------------------
  // The specification

  /** applySerialized: the new buffer, or the first error met. */
  function Apply(base: seq<byte>, delta: MessageDelta): Result<seq<byte>>
    decreases delta, 5
  {
    if delta.flags.newSide == NewIsEmptyBytes then Success([])
    else if |delta.newBytes| > 0 then Success(delta.newBytes)
    else ApplyFields(base, delta.fields)
  }

  /**
    The part of applySerialized past its two shortcuts, for a delta made of
    `fields` alone. applyField's nested call builds such a delta (no flags, no
    buffers), for which the shortcuts never apply.
   */
  function ApplyFields(base: seq<byte>, fields: seq<FieldDelta>): Result<seq<byte>>
    decreases fields, 4
  {
    match Parse(base)
    case Failure(e) => Failure(e)
    case Success(parsed) =>
      match PatchMap(parsed, fields)
      case Failure(e) => Failure(e)
      case Success(m) => Success(Marshal(m))
  }

  /** Some entry moves an occurrence to another index. */
  predicate Remaps(fields: seq<FieldDelta>) {
    exists i | 0 <= i < |fields| :: fields[i].oldIndex != fields[i].newIndex
  }

  /** The patched map of a parsed base. */
  function PatchMap(parsed: FieldMap, fields: seq<FieldDelta>): Result<FieldMap>
    decreases fields, 3
  {
    if Remaps(fields) then Failure(IndexRemapUnsupported)
    else
      var dm := DeltaFieldMap(fields);
      var base := WithDeltaNumbers(parsed, dm);
      PatchNumbers(base, dm, base.Keys, map[], fields)
  }

  /** deltaFieldMap as the loop over the entries builds it: a later entry for the same place replaces an earlier one. */
  function DeltaFieldMap(fields: seq<FieldDelta>): (dm: DeltaMap)
    ensures forall k | k in dm :: forall j | j in dm[k] :: dm[k][j] in fields && dm[k][j].number == k && dm[k][j].index == j
  {
    if fields == [] then map[]
    else
      var dm := DeltaFieldMap(fields[..|fields| - 1]);
      var f := fields[|fields| - 1];
      dm[f.number := (if f.number in dm then dm[f.number] else map[])[f.index := f]]
  }

  /** `parsed[num] = append(parsed[num])`: every number with entries gets a (possibly empty) occurrence list. */
  function WithDeltaNumbers(parsed: FieldMap, dm: DeltaMap): (m: FieldMap)
    ensures m.Keys == parsed.Keys + dm.Keys
  {
    map k | k in parsed.Keys + dm.Keys :: Get(parsed, k)
  }

  /** The augmented base keeps every parsed list as it is and gives each added number an empty list. */
  lemma WithDeltaNumbersLists(parsed: FieldMap, dm: DeltaMap)
    ensures forall k | k in parsed :: WithDeltaNumbers(parsed, dm)[k] == parsed[k]
    ensures forall k | k in dm && k !in parsed :: WithDeltaNumbers(parsed, dm)[k] == []
  {
  }

  /** Every entry of `dm` is one of `all`. */
  ghost predicate From(dm: DeltaMap, all: seq<FieldDelta>) {
    forall k | k in dm :: forall j | j in dm[k] :: dm[k][j] in all
  }

  /** The loop over the numbers of `base` (smallest first) adding each number's patched occurrences to `acc`. */
  function PatchNumbers(base: FieldMap, dm: DeltaMap, rest: set<int32>, acc: FieldMap, all: seq<FieldDelta>): Result<FieldMap>
    requires rest <= base.Keys && From(dm, all)
    decreases all, 2, rest
  {
    if rest == {} then Success(acc)
    else
      var k := MinOf(rest);
      if k !in dm then PatchNumbers(base, dm, rest - {k}, acc[k := base[k]], all)
      else
        match PatchNumber(base[k], dm[k], 0, all)
        case Failure(e) => Failure(e)
        case Success(out) => PatchNumbers(base, dm, rest - {k}, acc[k := out], all)
  }

  /** What is left of the index loop: entries not yet consumed, and base occurrences from `i` on. */
  function Remaining(occ: seq<FieldData>, deltas: map<int, FieldDelta>, i: nat): nat {
    |deltas| + (if i < |occ| then |occ| - i else 0)
  }

  function At(occ: seq<FieldData>, i: nat): Option<FieldData> {
    if i < |occ| then Some(occ[i]) else None
  }

  /**
    The index loop of one field number: while base occurrences or entries
    remain, an index without an entry keeps its base occurrence (and fails
    when there is none), and an index with one is patched and the entry
    consumed.
   */
  function PatchNumber(occ: seq<FieldData>, deltas: map<int, FieldDelta>, i: nat, all: seq<FieldDelta>): Result<seq<FieldData>>
    requires forall j | j in deltas :: deltas[j] in all
    decreases all, 1, Remaining(occ, deltas, i)
  {
    if !(i < |occ| || |deltas| > 0) then Success([])
    else if i !in deltas then
      if i >= |occ| then Failure(MissingFieldDelta)
      else Prepend([occ[i]], PatchNumber(occ, deltas, i + 1, all))
    else
      match ApplyField(At(occ, i), deltas[i])
      case Failure(e) => Failure(e)
      case Success(d) => Prepend(if d.Some? then [d.value] else [], PatchNumber(occ, deltas - {i}, i + 1, all))
  }

  /**
    applyField: the occurrence an entry leaves at its place (None removes it),
    given the base occurrence there, if any.
   */
  function ApplyField(fd: Option<FieldData>, delta: FieldDelta): Result<Option<FieldData>>
    decreases delta, 0
  {
    if delta.flags == Unchanged then
      if fd.None? then Failure(NewAndUnchanged) else Success(fd)
    else
      match delta.flags.newSide
      case NewUnspecified => ApplyValue(fd, delta)
      case NewIsNotSet => Success(None)
      case NewIsEmptyBytes => Success(Some(BytesField([])))
      case NewIsDefaultVarint => Success(Some(VarintField(0)))
      case NewIsDefaultFixed32 => Success(Some(Fixed32Field(0)))
      case NewIsDefaultFixed64 => Success(Some(Fixed64Field(0)))
      case NewIsSetElsewhere => if fd.None? then Failure(NothingToKeep) else Success(fd)
      case NewUnknown => Failure(UnknownFieldFlag)
  }

  /** applyField without new-side flags: the first explicit new value, else the nested entries, else an error. */
  function ApplyValue(fd: Option<FieldData>, delta: FieldDelta): Result<Option<FieldData>>
    decreases delta, 0, 0
  {
    if |delta.newBytes| > 0 then Success(Some(BytesField(delta.newBytes)))
    else if delta.newVarint > 0 then Success(Some(VarintField(delta.newVarint)))
    else if delta.newFixed32 > 0 then Success(Some(Fixed32Field(delta.newFixed32)))
    else if delta.newFixed64 > 0 then Success(Some(Fixed64Field(delta.newFixed64)))
    else if |delta.fields| > 0 then
      if fd.Some? && fd.value.typ != BytesType then Failure(FieldsOnNonMessage)
      else
        match ApplyFields(if fd.Some? then fd.value.bytes else [], delta.fields)
        case Failure(e) => Failure(e)
        case Success(b) => Success(Some(BytesField(b)))
    else Failure(InvalidField)
  }

  // ---------------------------------------------------------------------------
  // The algorithm

  /** applySerialized, as the source computes it. */
  method ApplySerialized(serialized: seq<byte>, delta: MessageDelta) returns (r: Result<seq<byte>>)
    ensures r == Apply(serialized, delta)
  {
    if delta.flags.newSide == NewIsEmptyBytes {
      return Success([]);
    }
    if |delta.newBytes| > 0 {
      return Success(delta.newBytes);
    }
    var parsed := ParseMessage(serialized);
    if parsed.Failure? {
      return Failure(parsed.error);
    }
    var patched := PatchMessage(parsed.value, delta.fields);
    r := MarshalPatched(patched);
  }

  method MarshalPatched(patched: Result<FieldMap>) returns (r: Result<seq<byte>>)
    ensures patched.Failure? ==> r == Failure(patched.error)
    ensures patched.Success? ==> r == Success(Marshal(patched.value))
  {
    if patched.Failure? {
      return Failure(patched.error);
    }
    var out := MarshalMessage(patched.value);
    r := Success(out);
  }

  /** The body of applySerialized between parsing and marshalling. */
  method PatchMessage(parsed: FieldMap, fields: seq<FieldDelta>) returns (r: Result<FieldMap>)
    ensures r == PatchMap(parsed, fields)
  {
    var grouped := GroupEntries(parsed, fields);
    if grouped.Failure? {
      return Failure(grouped.error);
    }
    var (base, dm) := grouped.value;
    r := PatchAll(base, dm, fields);
  }

  /**
    The loop over the entries: refuses any remapping entry, files each entry
    under its number and index, and gives every number with entries a place
    in the parsed map.
   */
  method GroupEntries(parsed: FieldMap, fields: seq<FieldDelta>) returns (r: Result<(FieldMap, DeltaMap)>)
    ensures Remaps(fields) <==> r.Failure?
    ensures r.Failure? ==> r.error == IndexRemapUnsupported
    ensures r.Success? ==> r.value == (WithDeltaNumbers(parsed, DeltaFieldMap(fields)), DeltaFieldMap(fields))
  {
    var dm: DeltaMap := map[];
    var base := parsed;
    var i := 0;
    while i < |fields|
      invariant 0 <= i <= |fields|
      invariant forall j | 0 <= j < i :: fields[j].oldIndex == fields[j].newIndex
      invariant dm == DeltaFieldMap(fields[..i]) && base == WithDeltaNumbers(parsed, dm)
    {
      var f := fields[i];
      if f.oldIndex != f.newIndex {
        return Failure(IndexRemapUnsupported);
      }
      DeltaFieldMapStep(fields, i);
      var num := f.number;
      var inner := if num in dm then dm[num] else map[];
      WithDeltaNumbersStep(parsed, dm, num, inner[f.index := f]);
      dm := dm[num := inner[f.index := f]];
      base := base[num := Get(base, num)];
      i := i + 1;
    }
    assert fields[..i] == fields;
    r := Success((base, dm));
  }

  lemma DeltaFieldMapStep(fields: seq<FieldDelta>, i: nat)
    requires i < |fields|
    ensures var f := fields[i]; var dm := DeltaFieldMap(fields[..i]);
      DeltaFieldMap(fields[..i + 1]) == dm[f.number := (if f.number in dm then dm[f.number] else map[])[f.index := f]]
  {
    assert fields[..i + 1][..i] == fields[..i];
  }

  lemma WithDeltaNumbersStep(parsed: FieldMap, dm: DeltaMap, num: int32, inner: map<int, FieldDelta>)
    ensures WithDeltaNumbers(parsed, dm[num := inner]) == WithDeltaNumbers(parsed, dm)[num := Get(parsed, num)]
  {
  }

  /** The loop over the numbers of the augmented base map, patching those with entries. */
  method PatchAll(base: FieldMap, dm: DeltaMap, fields: seq<FieldDelta>) returns (r: Result<FieldMap>)
    requires From(dm, fields)
    ensures r == PatchNumbers(base, dm, base.Keys, map[], fields)
  {
    var out: FieldMap := map[];
    var rest := base.Keys;
    while rest != {}
      invariant rest <= base.Keys
      invariant PatchNumbers(base, dm, base.Keys, map[], fields) == PatchNumbers(base, dm, rest, out, fields)
      decreases rest
    {
      var num := MinOf(rest);
      if num !in dm {
        out := out[num := base[num]];
      } else {
        var newFields := PatchOccurrences(base[num], dm[num], fields);
        if newFields.Failure? {
          return Failure(newFields.error);
        }
        out := out[num := newFields.value];
      }
      rest := rest - {num};
    }
    r := Success(out);
  }

  /** The index loop of one number: `deltas` shrinks as entries are consumed (the source's delete). */
  method PatchOccurrences(occ: seq<FieldData>, entries: map<int, FieldDelta>, all: seq<FieldDelta>) returns (r: Result<seq<FieldData>>)
    requires forall j | j in entries :: entries[j] in all
    ensures r == PatchNumber(occ, entries, 0, all)
  {
    var newFields: seq<FieldData> := [];
    var deltas := entries;
    var i := 0;
    PrependNothing(PatchNumber(occ, entries, 0, all));
    while i < |occ| || |deltas| > 0
      invariant forall j | j in deltas :: j in entries && deltas[j] == entries[j]
      invariant PatchNumber(occ, entries, 0, all) == Prepend(newFields, PatchNumber(occ, deltas, i, all))
      decreases Remaining(occ, deltas, i)
    {
      var kept, rest := VisitIndex(occ, deltas, i, all);
      if kept.Failure? {
        return Failure(kept.error);
      }
      PrependTwice(newFields, kept.value, PatchNumber(occ, rest, i + 1, all));
      newFields := newFields + kept.value;
      deltas := rest;
      i := i + 1;
    }
    assert newFields + [] == newFields;
    r := Success(newFields);
  }

  /**
    One pass of the index loop: the occurrences it keeps at index `i`, or its
    error, and the entries left once the one at `i`, if any, is consumed.
   */
  method VisitIndex(occ: seq<FieldData>, deltas: map<int, FieldDelta>, i: nat, all: seq<FieldDelta>)
    returns (kept: Result<seq<FieldData>>, rest: map<int, FieldDelta>)
    requires forall j | j in deltas :: deltas[j] in all
    requires i < |occ| || |deltas| > 0
    ensures rest == deltas - {i}
    ensures kept.Success? ==> Remaining(occ, rest, i + 1) < Remaining(occ, deltas, i)
    ensures kept.Failure? ==> PatchNumber(occ, deltas, i, all) == Failure(kept.error)
    ensures kept.Success? ==> PatchNumber(occ, deltas, i, all) == Prepend(kept.value, PatchNumber(occ, rest, i + 1, all))
  {
    rest := deltas - {i};
    if i !in deltas {
      assert rest == deltas;
      if i >= |occ| {
        return Failure(MissingFieldDelta), rest;
      }
      return Success([occ[i]]), rest;
    }
    var newField := ApplyField(At(occ, i), deltas[i]);
    if newField.Failure? {
      return Failure(newField.error), rest;
    }
    kept := Success(if newField.value.Some? then [newField.value.value] else []);
  }

  // ---------------------------------------------------------------------------
  // Properties

  /** The two shortcuts: an empty-bytes flag gives the empty buffer, explicit new bytes are returned as they are, whatever the base. */
  lemma ApplyShortcuts(base: seq<byte>, delta: MessageDelta)
    ensures delta.flags.newSide == NewIsEmptyBytes ==> Apply(base, delta) == Success([])
    ensures delta.flags.newSide != NewIsEmptyBytes && delta.newBytes != [] ==> Apply(base, delta) == Success(delta.newBytes)
  {
  }

  /** A base that does not parse fails with the parser's error; then any remapping entry fails the whole delta. */
  lemma ApplyErrors(base: seq<byte>, delta: MessageDelta)
    requires delta.flags.newSide != NewIsEmptyBytes && delta.newBytes == []
    ensures Parse(base).Failure? ==> Apply(base, delta) == Failure(Parse(base).error)
    ensures Parse(base).Success? && Remaps(delta.fields) ==> Apply(base, delta) == Failure(IndexRemapUnsupported)
  {
    if Parse(base).Success? && Remaps(delta.fields) {
      assert PatchMap(Parse(base).value, delta.fields) == Failure(IndexRemapUnsupported);
    }
  }

  /** Every entry of the fields is filed under its number and index. */
  lemma {:induction false} DeltaFieldMapHas(fields: seq<FieldDelta>, e: FieldDelta)
    requires e in fields
    ensures e.number in DeltaFieldMap(fields) && e.index in DeltaFieldMap(fields)[e.number]
  {
    var init := fields[..|fields| - 1];
    if e != fields[|fields| - 1] {
      assert e in init;
      DeltaFieldMapHas(init, e);
    }
  }

  /** With no entries left, the index loop keeps the base occurrences from `i` on. */
  lemma {:induction false} PatchNumberNoEntries(occ: seq<FieldData>, i: nat, all: seq<FieldDelta>)
    requires i <= |occ|
    ensures PatchNumber(occ, map[], i, all) == Success(occ[i..])
    decreases |occ| - i
  {
    var none: map<int, FieldDelta> := map[];
    assert |none| == 0 && i !in none;
    if i < |occ| {
      PatchNumberNoEntries(occ, i + 1, all);
      assert PatchNumber(occ, none, i, all) == Prepend([occ[i]], PatchNumber(occ, none, i + 1, all));
      assert occ[i..] == [occ[i]] + occ[i + 1..];
    } else {
      assert PatchNumber(occ, none, i, all) == Success([]);
      assert occ[i..] == [];
    }
  }

  /**
    An entry past the end of the base with no entry for the index right after
    the last base occurrence: the loop reaches that index and fails.
   */
  lemma {:induction false} PatchNumberGap(occ: seq<FieldData>, deltas: map<int, FieldDelta>, i: nat, all: seq<FieldDelta>)
    requires i <= |occ| && |deltas| > 0 && (forall j | j in deltas :: j > |occ|)
    requires forall j | j in deltas :: deltas[j] in all
    ensures PatchNumber(occ, deltas, i, all) == Failure(MissingFieldDelta)
    decreases |occ| - i
  {
    if i < |occ| {
      PatchNumberGap(occ, deltas, i + 1, all);
    }
  }

  /**
    The general gap: when some entry lies past an index `g` at or beyond the
    end of the base that has no entry, the loop fails, whatever the entries
    before the gap are (it stops at `g` with "missing field delta" unless an
    earlier entry failed first).
   */
  lemma {:induction false} PatchNumberMissing(occ: seq<FieldData>, deltas: map<int, FieldDelta>, i: nat, g: nat, j: int, all: seq<FieldDelta>)
    requires forall k | k in deltas :: deltas[k] in all
    requires j in deltas && |occ| <= g < j && g !in deltas && i <= g
    ensures PatchNumber(occ, deltas, i, all).Failure?
    decreases g - i
  {
    if i !in deltas {
      if i < |occ| {
        PatchNumberMissing(occ, deltas, i + 1, g, j, all);
      }
    } else {
      PatchNumberMissing(occ, deltas - {i}, i + 1, g, j, all);
    }
  }

  /**
    What the loop over the numbers produces: exactly the numbers of `acc` and
    `rest`; a number without entries keeps its base occurrences; one with
    entries gets what its index loop returns; `acc` is kept elsewhere.
   */
  lemma {:induction false} PatchNumbersResult(base: FieldMap, dm: DeltaMap, rest: set<int32>, acc: FieldMap, all: seq<FieldDelta>)
    requires rest <= base.Keys && From(dm, all)
    requires PatchNumbers(base, dm, rest, acc, all).Success?
    ensures var m := PatchNumbers(base, dm, rest, acc, all).value;
      m.Keys == acc.Keys + rest &&
      (forall k | k in rest && k !in dm :: m[k] == base[k]) &&
      (forall k | k in rest && k in dm :: PatchNumber(base[k], dm[k], 0, all) == Success(m[k])) &&
      (forall k | k in acc && k !in rest :: m[k] == acc[k])
    decreases rest
  {
    if rest != {} {
      var k := MinOf(rest);
      if k !in dm {
        PatchNumbersResult(base, dm, rest - {k}, acc[k := base[k]], all);
      } else {
        var out := PatchNumber(base[k], dm[k], 0, all).value;
        PatchNumbersResult(base, dm, rest - {k}, acc[k := out], all);
      }
    }
  }

  /** Conversely, when every number's index loop gives the target's occurrences, the loop over the numbers gives the target. */
  lemma {:induction false} PatchNumbersAll(base: FieldMap, dm: DeltaMap, rest: set<int32>, acc: FieldMap, all: seq<FieldDelta>, target: FieldMap)
    requires rest <= base.Keys && From(dm, all) && rest <= target.Keys
    requires forall k | k in rest && k !in dm :: target[k] == base[k]
    requires forall k | k in rest && k in dm :: PatchNumber(base[k], dm[k], 0, all) == Success(target[k])
    ensures PatchNumbers(base, dm, rest, acc, all) == Success(acc + Restrict(target, rest))
    decreases rest
  {
    if rest == {} {
      assert acc + Restrict(target, rest) == acc;
    } else {
      var k := MinOf(rest);
      PatchNumbersAll(base, dm, rest - {k}, acc[k := target[k]], all, target);
      RestrictStep(acc, target, rest, k);
    }
  }

  lemma RestrictStep(acc: FieldMap, target: FieldMap, rest: set<int32>, k: int32)
    requires k in rest && rest <= target.Keys
    ensures acc[k := target[k]] + Restrict(target, rest - {k}) == acc + Restrict(target, rest)
  {
    var a, b := acc[k := target[k]] + Restrict(target, rest - {k}), acc + Restrict(target, rest);
    assert a.Keys == b.Keys;
    forall x | x in a.Keys
      ensures a[x] == b[x]
    {
    }
  }

  /**
    The frame of the patch: the result has the base's numbers and the
    entries' numbers, and a number without entries keeps its base
    occurrences unchanged.
   */
  lemma PatchMapFrame(parsed: FieldMap, fields: seq<FieldDelta>)
    requires PatchMap(parsed, fields).Success?
    ensures PatchMap(parsed, fields).value.Keys == parsed.Keys + DeltaFieldMap(fields).Keys
    ensures forall k | k in parsed && k !in DeltaFieldMap(fields) :: PatchMap(parsed, fields).value[k] == parsed[k]
  {
    var dm := DeltaFieldMap(fields);
    var base := WithDeltaNumbers(parsed, dm);
    PatchNumbersResult(base, dm, base.Keys, map[], fields);
  }

  /**
    applyField undoes setNew: a record whose new side was filled by SetNew
    from a bytes or varint occurrence gives that occurrence back, whatever
    the base and whatever its old side says.
   */
  lemma ApplyFieldSetNew(fd: Option<FieldData>, f: FieldDelta, d: FieldData, side: OldFlag)
    requires Canonical(d) && (d.typ == BytesType || d.typ == VarintType)
    requires !f.flags.unchangedMarker && f.flags.newSide == NewUnspecified
    requires f.newBytes == [] && f.newVarint == 0 && f.newFixed32 == 0 && f.newFixed64 == 0
    ensures ApplyField(fd, SetNew(f, d)) == Success(Some(d))
    ensures var g := SetNew(f, d); ApplyField(fd, g.(flags := g.flags.(oldSide := side))) == Success(Some(d))
  {
  }

  /** UNCHANGED and NEW_IS_SET_ELSEWHERE keep the base occurrence, and fail without one; NEW_IS_NOT_SET removes it. */
  lemma ApplyFieldKeepsOrRemoves(fd: Option<FieldData>, delta: FieldDelta)
    ensures delta.flags == Unchanged ==> ApplyField(fd, delta) == if fd.None? then Failure(NewAndUnchanged) else Success(fd)
    ensures delta.flags != Unchanged && delta.flags.newSide == NewIsSetElsewhere ==>
      ApplyField(fd, delta) == if fd.None? then Failure(NothingToKeep) else Success(fd)
    ensures delta.flags != Unchanged && delta.flags.newSide == NewIsNotSet ==> ApplyField(fd, delta) == Success(None)
  {
  }

  /** Each default or empty new-side flag yields the zero occurrence of its wire type, whatever the base. */
  lemma ApplyFieldDefaults(fd: Option<FieldData>, delta: FieldDelta)
    requires delta.flags != Unchanged
    ensures delta.flags.newSide == NewIsEmptyBytes ==> ApplyField(fd, delta) == Success(Some(BytesField([])))
    ensures delta.flags.newSide == NewIsDefaultVarint ==> ApplyField(fd, delta) == Success(Some(VarintField(0)))
    ensures delta.flags.newSide == NewIsDefaultFixed32 ==> ApplyField(fd, delta) == Success(Some(Fixed32Field(0)))
    ensures delta.flags.newSide == NewIsDefaultFixed64 ==> ApplyField(fd, delta) == Success(Some(Fixed64Field(0)))
    ensures delta.flags.newSide == NewUnknown ==> ApplyField(fd, delta) == Failure(UnknownFieldFlag)
  {
  }

  /**
    Without a new-side flag the first explicit new value wins, in the order
    bytes, varint, fixed32, fixed64; with none of them and no nested entries
    the entry is invalid.
   */
  lemma ApplyFieldValueOrder(fd: Option<FieldData>, delta: FieldDelta)
    requires delta.flags != Unchanged && delta.flags.newSide == NewUnspecified
    ensures delta.newBytes != [] ==> ApplyField(fd, delta) == Success(Some(BytesField(delta.newBytes)))
    ensures delta.newBytes == [] && delta.newVarint > 0 ==> ApplyField(fd, delta) == Success(Some(VarintField(delta.newVarint)))
    ensures delta.newBytes == [] && delta.newVarint == 0 && delta.newFixed32 > 0 ==>
      ApplyField(fd, delta) == Success(Some(Fixed32Field(delta.newFixed32)))
    ensures delta.newBytes == [] && delta.newVarint == 0 && delta.newFixed32 == 0 && delta.newFixed64 > 0 ==>
      ApplyField(fd, delta) == Success(Some(Fixed64Field(delta.newFixed64)))
    ensures delta.newBytes == [] && delta.newVarint == 0 && delta.newFixed32 == 0 && delta.newFixed64 == 0 && delta.fields == [] ==>
      ApplyField(fd, delta) == Failure(InvalidField)
  {
  }

  /**
    Nested entries with no explicit value patch the base occurrence's bytes
    (or the empty buffer without one) exactly as applySerialized patches a
    message made of those entries; a base of another wire type is refused.
   */
  lemma ApplyFieldNested(fd: Option<FieldData>, delta: FieldDelta)
    requires delta.flags != Unchanged && delta.flags.newSide == NewUnspecified && delta.fields != []
    requires delta.newBytes == [] && delta.newVarint == 0 && delta.newFixed32 == 0 && delta.newFixed64 == 0
    ensures fd.Some? && fd.value.typ != BytesType ==> ApplyField(fd, delta) == Failure(FieldsOnNonMessage)
    ensures fd.None? || fd.value.typ == BytesType ==>
      var applied := Apply(if fd.Some? then fd.value.bytes else [], MessageDelta(NoFlags, [], [], delta.fields));
      ApplyField(fd, delta) == if applied.Failure? then Failure(applied.error) else Success(Some(BytesField(applied.value)))
  {
  }
}
