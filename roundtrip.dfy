/**
  The round trip between getDelta and applySerialized: applying the delta of
  two buffers to the first gives a buffer that parses as the second does,
  for the size-chosen and for the forced field-level delta alike.

  It holds for occurrences recorded by value, bytes and varint; setOld and
  setNew lose fixed32 and fixed64 values (Delta.Fixed32ValueIsLost). An
  embedded message whose occurrence differs must be written the way the
  codec writes it, since the patch re-serialises it: an unchanged nested
  delta keeps the old bytes, which must then be the new bytes.
 */
module RoundTrip {
  import opened Wrappers
  import opened Wire
  import opened Codec
  import opened CodecProofs
  import opened Delta
  import opened Diffing
  import opened Patch

  // ---------------------------------------------------------------------------
  // Hypotheses

  /** An occurrence recorded by value: bytes or varint, as the parser gives it. */
  predicate Plain(d: FieldData) {
    Canonical(d) && (d.typ == BytesType || d.typ == VarintType)
  }

  /** A buffer the codec writes back byte for byte. */
  ghost predicate CanonicalBuffer(b: seq<byte>) {
    Parse(b).Success? && Marshal(Parse(b).value) == b
  }

  /**
    Two buffers whose delta can be replayed: every occurrence is plain, and
    each differing occurrence of an embedded message is canonical on both
    sides and replayable in its turn.
   */
  ghost predicate Replayable(env: Env, desc: Descriptor, oldBuf: seq<byte>, newBuf: seq<byte>)
    decreases |oldBuf| + |newBuf|, 1
  {
    if oldBuf == newBuf || oldBuf == [] || newBuf == [] then true
    else if Parse(oldBuf).Failure? || Parse(newBuf).Failure? then false
    else
      ParsedWellFormed(oldBuf);
      ParsedWellFormed(newBuf);
      var om, nm := Parse(oldBuf).value, Parse(newBuf).value;
      forall k | k in om.Keys + nm.Keys :: ReplayableNumber(env, desc, k, Get(om, k), Get(nm, k), |oldBuf|, |newBuf|)
  }

  ghost predicate ReplayableNumber(env: Env, desc: Descriptor, k: int32, olds: seq<FieldData>, news: seq<FieldData>, ob: nat, nb: nat)
    requires ShorterThan(olds, ob) && ShorterThan(news, nb)
    decreases ob + nb, 0
  {
    (forall i | 0 <= i < |olds| :: Plain(olds[i])) &&
    (forall i | 0 <= i < |news| :: Plain(news[i])) &&
    (Resolve(env.schema, env.registry, desc, k).Some? ==>
      forall i | 0 <= i < |olds| && i < |news| && olds[i] != news[i] ::
        CanonicalBuffer(olds[i].bytes) && CanonicalBuffer(news[i].bytes) &&
        Replayable(env, Resolve(env.schema, env.registry, desc, k).value, olds[i].bytes, news[i].bytes))
  }

  // ---------------------------------------------------------------------------
  // The round trip

  /**
    applySerialized undoes getDelta: no delta means both buffers parse alike;
    a delta applied to the old buffer gives the new buffer, or the codec's
    writing of its parse. Embedded messages patched field by field are
    written back by Marshal, which takes numbers in ascending order; the
    byte equalities below rest on that order.
   */
  lemma {:induction false} DiffApply(env: Env, desc: Descriptor, oldBuf: seq<byte>, newBuf: seq<byte>)
    requires Replayable(env, desc, oldBuf, newBuf) && Diff(env, oldBuf, newBuf, desc).Success?
    ensures Diff(env, oldBuf, newBuf, desc).value.None? ==> Parse(oldBuf) == Parse(newBuf)
    ensures Diff(env, oldBuf, newBuf, desc).value.Some? ==>
      var applied := Apply(oldBuf, Diff(env, oldBuf, newBuf, desc).value.value);
      applied == Success(newBuf) || (Parse(newBuf).Success? && applied == Success(Marshal(Parse(newBuf).value)))
    decreases |oldBuf| + |newBuf|, 6
  {
    if oldBuf != newBuf && oldBuf != [] && newBuf != [] {
      FieldLevelReplays(env, desc, oldBuf, newBuf);
    }
  }

  /** What a program sees: the patched buffer parses as the new buffer does. */
  lemma DiffThenApply(env: Env, desc: Descriptor, oldBuf: seq<byte>, newBuf: seq<byte>)
    requires Replayable(env, desc, oldBuf, newBuf) && Diff(env, oldBuf, newBuf, desc).Success?
    requires Diff(env, oldBuf, newBuf, desc).value.Some?
    ensures Apply(oldBuf, Diff(env, oldBuf, newBuf, desc).value.value).Success?
    ensures Parse(Apply(oldBuf, Diff(env, oldBuf, newBuf, desc).value.value).value) == Parse(newBuf)
    ensures CanonicalBuffer(newBuf) ==> Apply(oldBuf, Diff(env, oldBuf, newBuf, desc).value.value) == Success(newBuf)
  {
    DiffApply(env, desc, oldBuf, newBuf);
    if Parse(newBuf).Success? {
      ReparseRoundTrip(newBuf);
    }
  }

  /** The same for the delta getDelta returns when the hook forces field-level deltas. */
  lemma ForcedFieldLevel(env: Env, desc: Descriptor, oldBuf: seq<byte>, newBuf: seq<byte>)
    requires env.alwaysFieldLevel
    requires Replayable(env, desc, oldBuf, newBuf) && Diff(env, oldBuf, newBuf, desc).Success?
    requires oldBuf != [] && newBuf != [] && Diff(env, oldBuf, newBuf, desc).value.Some?
    ensures Diff(env, oldBuf, newBuf, desc).value.value.newBytes == []
    ensures Apply(oldBuf, Diff(env, oldBuf, newBuf, desc).value.value).Success?
    ensures Parse(Apply(oldBuf, Diff(env, oldBuf, newBuf, desc).value.value).value) == Parse(newBuf)
  {
    DiffThenApply(env, desc, oldBuf, newBuf);
  }

  /** The non-trivial case of DiffApply. */
  lemma FieldLevelReplays(env: Env, desc: Descriptor, oldBuf: seq<byte>, newBuf: seq<byte>)
    requires oldBuf != newBuf && oldBuf != [] && newBuf != []
    requires Replayable(env, desc, oldBuf, newBuf) && Diff(env, oldBuf, newBuf, desc).Success?
    ensures Diff(env, oldBuf, newBuf, desc).value.None? ==> Parse(oldBuf) == Parse(newBuf)
    ensures Diff(env, oldBuf, newBuf, desc).value.Some? ==>
      var applied := Apply(oldBuf, Diff(env, oldBuf, newBuf, desc).value.value);
      applied == Success(newBuf) || (Parse(newBuf).Success? && applied == Success(Marshal(Parse(newBuf).value)))
    decreases |oldBuf| + |newBuf|, 5
  {
    var om, nm := Parse(oldBuf).value, Parse(newBuf).value;
    ParsedWellFormed(oldBuf);
    ParsedWellFormed(newBuf);
    var keys := om.Keys + nm.Keys;
    var fields := NumbersEntries(env, desc, om, nm, keys, |oldBuf|, |newBuf|).value;
    assert Diff(env, oldBuf, newBuf, desc) == Success(Choose(env, oldBuf, newBuf, fields));
    NumbersReplay(env, desc, om, nm, |oldBuf|, |newBuf|);
    if fields == [] {
      SameOccurrences(om, nm, |oldBuf|, |newBuf|);
    } else if env.deltaSize(MessageDelta(NoFlags, [], [], fields)) < RawLen(oldBuf, newBuf) || env.alwaysFieldLevel {
      PatchMapReplays(om, nm, fields);
      assert Apply(oldBuf, MessageDelta(NoFlags, [], [], fields)) == ApplyFields(oldBuf, fields);
    }
  }

  /** Two parsed maps whose occurrence lists agree on every number of either are equal. */
  lemma SameOccurrences(om: FieldMap, nm: FieldMap, ob: nat, nb: nat)
    requires WellFormedMap(om, ob) && WellFormedMap(nm, nb)
    requires forall k | k in om.Keys + nm.Keys :: Get(om, k) == Get(nm, k)
    ensures om == nm
  {
    forall k | k in om.Keys + nm.Keys
      ensures k in om && k in nm && om[k] == nm[k]
    {
      assert Get(om, k) == Get(nm, k);
    }
  }

  /**
    Entries that replay `om` into `nm`: no remapping, numbers of either map
    only, each number's entries patching its old occurrences into its new
    ones, and a number without entries already equal on both sides.
   */
  ghost predicate EntriesReplay(om: FieldMap, nm: FieldMap, fields: seq<FieldDelta>) {
    var dm := DeltaFieldMap(fields);
    !Remaps(fields) && dm.Keys <= om.Keys + nm.Keys &&
    forall k | k in om.Keys + nm.Keys ::
      (k !in dm ==> Get(om, k) == Get(nm, k)) &&
      (k in dm ==> PatchNumber(Get(om, k), dm[k], 0, fields) == Success(Get(nm, k)))
  }

  /** The entries getDelta collects from two parsed maps replay the first into the second. */
  lemma NumbersReplay(env: Env, desc: Descriptor, om: FieldMap, nm: FieldMap, ob: nat, nb: nat)
    requires WellFormedMap(om, ob) && WellFormedMap(nm, nb)
    requires NumbersEntries(env, desc, om, nm, om.Keys + nm.Keys, ob, nb).Success?
    requires forall k | k in om.Keys + nm.Keys :: ReplayableNumber(env, desc, k, Get(om, k), Get(nm, k), ob, nb)
    ensures EntriesReplay(om, nm, NumbersEntries(env, desc, om, nm, om.Keys + nm.Keys, ob, nb).value)
    decreases ob + nb, 3
  {
    var keys := om.Keys + nm.Keys;
    var fields := NumbersEntries(env, desc, om, nm, keys, ob, nb).value;
    var dm := DeltaFieldMap(fields);
    EntriesKeepIndex(env, desc, om, nm, ob, nb);
    EntriesStrictlySorted(env, desc, om, nm, keys, ob, nb);
    forall k | k in dm
      ensures k in keys
    {
      DeltaFieldMapKeys(fields, k);
    }
    forall k | k in keys
      ensures k !in dm ==> Get(om, k) == Get(nm, k)
      ensures k in dm ==> PatchNumber(Get(om, k), dm[k], 0, fields) == Success(Get(nm, k))
    {
      NumberReplays(env, desc, om, nm, keys, ob, nb, k);
    }
  }

  /** getDelta never remaps an index: every entry's old and new index agree. */
  lemma EntriesKeepIndex(env: Env, desc: Descriptor, om: FieldMap, nm: FieldMap, ob: nat, nb: nat)
    requires WellFormedMap(om, ob) && WellFormedMap(nm, nb)
    requires NumbersEntries(env, desc, om, nm, om.Keys + nm.Keys, ob, nb).Success?
    ensures !Remaps(NumbersEntries(env, desc, om, nm, om.Keys + nm.Keys, ob, nb).value)
  {
    var keys := om.Keys + nm.Keys;
    var fields := NumbersEntries(env, desc, om, nm, keys, ob, nb).value;
    EntriesStrictlySorted(env, desc, om, nm, keys, ob, nb);
    forall j | 0 <= j < |fields|
      ensures fields[j].oldIndex == fields[j].newIndex
    {
      var e := fields[j];
      EntriesOfNumber(env, desc, om, nm, keys, ob, nb, e.number);
      IndexEntriesShape(env, desc, e.number, Get(om, e.number), Get(nm, e.number), 0, ob, nb);
    }
  }

  /** A number the patch files entries under is the number of one of them. */
  lemma {:induction false} DeltaFieldMapKeys(fields: seq<FieldDelta>, k: int32)
    requires k in DeltaFieldMap(fields)
    ensures exists e | e in fields :: e.number == k
  {
    var f := fields[|fields| - 1];
    if f.number != k {
      DeltaFieldMapKeys(fields[..|fields| - 1], k);
      var e :| e in fields[..|fields| - 1] && e.number == k;
      assert e in fields;
    }
  }

  /** One number of NumbersReplay. */
  lemma NumberReplays(env: Env, desc: Descriptor, om: FieldMap, nm: FieldMap, nums: set<int32>, ob: nat, nb: nat, k: int32)
    requires WellFormedMap(om, ob) && WellFormedMap(nm, nb) && k in nums
    requires NumbersEntries(env, desc, om, nm, nums, ob, nb).Success?
    requires ReplayableNumber(env, desc, k, Get(om, k), Get(nm, k), ob, nb)
    ensures var fields := NumbersEntries(env, desc, om, nm, nums, ob, nb).value;
      var dm := DeltaFieldMap(fields);
      (k !in dm ==> Get(om, k) == Get(nm, k)) &&
      (k in dm ==> PatchNumber(Get(om, k), dm[k], 0, fields) == Success(Get(nm, k)))
    decreases ob + nb, 2
  {
    var fields := NumbersEntries(env, desc, om, nm, nums, ob, nb).value;
    var dm := DeltaFieldMap(fields);
    var olds, news := Get(om, k), Get(nm, k);
    var d := if k in dm then dm[k] else map[];
    DeltaFieldMapMatches(env, desc, om, nm, nums, ob, nb, k);
    IndexEntriesReplay(env, desc, k, olds, news, 0, ob, nb);
    PatchFromReplay(olds, news, IndexEntries(env, desc, k, olds, news, 0, ob, nb).value, 0, d, fields);
    if k !in dm {
      PatchNumberNoEntries(olds, 0, fields);
    }
  }

  /** Replaying entries patch the old map into one that the codec writes as it writes the new map. */
  lemma PatchMapReplays(om: FieldMap, nm: FieldMap, fields: seq<FieldDelta>)
    requires EntriesReplay(om, nm, fields) && forall k | k in nm :: nm[k] != []
    ensures PatchMap(om, fields).Success? && Marshal(PatchMap(om, fields).value) == Marshal(nm)
  {
    var dm := DeltaFieldMap(fields);
    var base := WithDeltaNumbers(om, dm);
    var target := map k | k in base.Keys :: Get(nm, k);
    forall k | k in nm
      ensures k in base
    {
      if k !in dm {
        assert Get(om, k) == Get(nm, k);
      }
    }
    forall k | k in base.Keys
      ensures k !in dm ==> target[k] == base[k]
      ensures k in dm ==> PatchNumber(base[k], dm[k], 0, fields) == Success(target[k])
    {
    }
    PatchNumbersTarget(base, dm, fields, target);
    FlattenExtraEmpty(target, nm);
  }

  /** The loop over the numbers, each giving the target's occurrences, gives the target. */
  lemma PatchNumbersTarget(base: FieldMap, dm: DeltaMap, all: seq<FieldDelta>, target: FieldMap)
    requires From(dm, all) && target.Keys == base.Keys
    requires forall k | k in base.Keys && k !in dm :: target[k] == base[k]
    requires forall k | k in base.Keys && k in dm :: PatchNumber(base[k], dm[k], 0, all) == Success(target[k])
    ensures PatchNumbers(base, dm, base.Keys, map[], all) == Success(target)
  {
    PatchNumbersAll(base, dm, base.Keys, map[], all, target);
    assert map[] + Restrict(target, base.Keys) == target;
  }

  // ---------------------------------------------------------------------------
  // One field number

  /** `d` files the entries `es` by index. */
  ghost predicate Matches(d: map<int, FieldDelta>, es: seq<FieldDelta>) {
    (forall j | j in d :: d[j] in es && d[j].index == j) &&
    (forall e | e in es :: e.index in d)
  }

  function Suffix(s: seq<FieldData>, i: nat): seq<FieldData> {
    if i <= |s| then s[i..] else []
  }

  /** Some entry of `es` is for occurrence `j`. */
  ghost predicate HasIndex(es: seq<FieldDelta>, j: int) {
    exists e | e in es :: e.index == j
  }

  /**
    Entries that replay occurrences `lo` on of one number: indices strictly
    increasing from `lo`, below the longer list; each entry, applied to the
    old occurrence at its index, gives the new one; an index without an
    entry holds the same occurrence on both sides.
   */
  ghost predicate PositionsReplay(olds: seq<FieldData>, news: seq<FieldData>, es: seq<FieldDelta>, lo: nat) {
    IncreasingIndex(es) &&
    (forall e | e in es :: lo <= e.index < Max(|olds|, |news|) && ApplyField(At(olds, e.index), e) == Success(At(news, e.index))) &&
    (forall j | lo <= j < Max(|olds|, |news|) && !HasIndex(es, j) :: j < |olds| && j < |news| && olds[j] == news[j])
  }

  /** The entries getDelta collects for one number from occurrence `i` on replay it. */
  lemma {:induction false} IndexEntriesReplay(env: Env, desc: Descriptor, k: int32, olds: seq<FieldData>, news: seq<FieldData>, i: nat, ob: nat, nb: nat)
    requires ShorterThan(olds, ob) && ShorterThan(news, nb) && ReplayableNumber(env, desc, k, olds, news, ob, nb)
    requires IndexEntries(env, desc, k, olds, news, i, ob, nb).Success?
    ensures PositionsReplay(olds, news, IndexEntries(env, desc, k, olds, news, i, ob, nb).value, i)
    decreases ob + nb, 1, Max(|olds|, |news|) - i
  {
    if i < Max(|olds|, |news|) {
      var head := PositionEntry(env, desc, k, olds, news, i, ob, nb).value;
      PositionReplays(env, desc, k, olds, news, i, ob, nb);
      PositionEntryShape(env, desc, k, olds, news, i, ob, nb);
      IndexEntriesReplay(env, desc, k, olds, news, i + 1, ob, nb);
      var tail := IndexEntries(env, desc, k, olds, news, i + 1, ob, nb).value;
      assert IndexEntries(env, desc, k, olds, news, i, ob, nb).value == head + tail;
      JoinReplay(olds, news, i, head, tail);
    }
  }

  lemma JoinReplay(olds: seq<FieldData>, news: seq<FieldData>, i: nat, head: seq<FieldDelta>, tail: seq<FieldDelta>)
    requires i < Max(|olds|, |news|) && |head| <= 1 && (forall e | e in head :: e.index == i)
    requires head == [] ==> i < |olds| && i < |news| && olds[i] == news[i]
    requires head != [] ==> ApplyField(At(olds, i), head[0]) == Success(At(news, i))
    requires PositionsReplay(olds, news, tail, i + 1)
    ensures PositionsReplay(olds, news, head + tail, i)
  {
    var es := head + tail;
    forall a, b | 0 <= a < b < |es|
      ensures es[a].index < es[b].index
    {
      if a < |head| {
        assert es[a] in head;
        assert es[b] in tail;
      } else {
        assert es[a] == tail[a - |head|] && es[b] == tail[b - |head|];
      }
    }
    forall e | e in es
      ensures i <= e.index < Max(|olds|, |news|) && ApplyField(At(olds, e.index), e) == Success(At(news, e.index))
    {
      if e in head {
        assert e == head[0];
      }
    }
    forall j | i <= j < Max(|olds|, |news|) && !HasIndex(es, j)
      ensures j < |olds| && j < |news| && olds[j] == news[j]
    {
      if j == i {
        if head != [] {
          assert head[0] in es;
          assert HasIndex(es, j);
        }
      } else {
        forall e | e in tail
          ensures e.index != j
        {
          assert e in es;
        }
        assert !HasIndex(tail, j);
      }
    }
  }

  /**
    The index loop, given entries that replay the occurrences from `i` on
    and filed by index in `d`, turns the old occurrences from `i` on into the
    new ones.
   */
  lemma {:induction false} PatchFromReplay(olds: seq<FieldData>, news: seq<FieldData>, es: seq<FieldDelta>, i: nat, d: map<int, FieldDelta>, all: seq<FieldDelta>)
    requires PositionsReplay(olds, news, es, i) && Matches(d, es) && i <= Max(|olds|, |news|)
    requires forall j | j in d :: d[j] in all
    ensures PatchNumber(olds, d, i, all) == Success(Suffix(news, i))
    decreases Max(|olds|, |news|) - i
  {
    forall j | j in d
      ensures i <= j < Max(|olds|, |news|)
    {
      assert d[j] in es;
    }
    if i == Max(|olds|, |news|) {
      assert d == map[];
      assert |d| == 0;
      assert Suffix(news, i) == [];
      assert PatchNumber(olds, d, i, all) == Success([]);
    } else if HasIndex(es, i) {
      PatchStep(olds, news, es, i, d, all);
      PatchFromReplay(olds, news, es[1..], i + 1, d - {i}, all);
      SuffixStep(news, i);
    } else {
      KeepStep(olds, news, es, i, d, all);
      PatchFromReplay(olds, news, es, i + 1, d, all);
      SuffixStep(news, i);
    }
  }

  lemma SuffixStep(s: seq<FieldData>, i: nat)
    ensures Suffix(s, i) == (if i < |s| then [s[i]] else []) + Suffix(s, i + 1)
  {
    if i < |s| {
      assert s[i..] == [s[i]] + s[i + 1..];
    }
  }

  /** An index without an entry: the old occurrence is kept and the same entries serve the rest. */
  lemma KeepStep(olds: seq<FieldData>, news: seq<FieldData>, es: seq<FieldDelta>, i: nat, d: map<int, FieldDelta>, all: seq<FieldDelta>)
    requires PositionsReplay(olds, news, es, i) && Matches(d, es) && i < Max(|olds|, |news|)
    requires !HasIndex(es, i) && forall j | j in d :: d[j] in all
    ensures i < |olds| && i < |news| && olds[i] == news[i]
    ensures PositionsReplay(olds, news, es, i + 1) && i !in d
    ensures PatchNumber(olds, d, i, all) == Prepend([news[i]], PatchNumber(olds, d, i + 1, all))
  {
    forall e | e in es
      ensures e.index > i
    {
    }
    assert i !in d by {
      forall j | j in d
        ensures j != i
      {
        assert d[j] in es;
      }
    }
  }

  /** An index with an entry: it is the first entry, and the map without it serves the rest. */
  lemma PatchStep(olds: seq<FieldData>, news: seq<FieldData>, es: seq<FieldDelta>, i: nat, d: map<int, FieldDelta>, all: seq<FieldDelta>)
    requires PositionsReplay(olds, news, es, i) && Matches(d, es) && i < Max(|olds|, |news|)
    requires HasIndex(es, i) && forall j | j in d :: d[j] in all
    ensures es != [] && es[0].index == i && i in d && d[i] == es[0]
    ensures PositionsReplay(olds, news, es[1..], i + 1) && Matches(d - {i}, es[1..])
    ensures PatchNumber(olds, d, i, all) ==
      Prepend(if i < |news| then [news[i]] else [], PatchNumber(olds, d - {i}, i + 1, all))
  {
    FirstEntry(es, i, d);
    PositionsReplayTail(olds, news, es, i);
    assert ApplyField(At(olds, i), d[i]) == Success(At(news, i));
    assert |d| > 0;
  }

  /** Entries with increasing indices from `i`, one of them at `i`: that one comes first and `d` minus `i` files the rest. */
  lemma FirstEntry(es: seq<FieldDelta>, i: nat, d: map<int, FieldDelta>)
    requires IncreasingIndex(es) && (forall e | e in es :: i <= e.index) && HasIndex(es, i) && Matches(d, es)
    ensures es != [] && es[0].index == i && i in d && d[i] == es[0]
    ensures (forall x | x in es[1..] :: x.index > i) && Matches(d - {i}, es[1..])
  {
    var e :| e in es && e.index == i;
    var a :| 0 <= a < |es| && es[a] == e;
    assert es[0] in es;
    LaterEntries(es);
    RestMatches(es, d);
  }

  /** In entries with increasing indices, every entry after the first has a larger index. */
  lemma LaterEntries(es: seq<FieldDelta>)
    requires IncreasingIndex(es) && es != []
    ensures forall x | x in es[1..] :: x.index > es[0].index && x != es[0]
  {
    var rest := es[1..];
    forall x | x in rest
      ensures x.index > es[0].index
    {
      var b :| 0 <= b < |rest| && rest[b] == x;
      assert es[b + 1] == x;
    }
  }

  /** Dropping the first entry from entries filed by index in `d` leaves those filed in `d` minus its index. */
  lemma RestMatches(es: seq<FieldDelta>, d: map<int, FieldDelta>)
    requires es != [] && Matches(d, es) && forall x | x in es[1..] :: x.index > es[0].index
    ensures Matches(d - {es[0].index}, es[1..])
  {
    var i := es[0].index;
    var rest := es[1..];
    forall j | j in d - {i}
      ensures d[j] in rest
    {
      assert d[j] in es && d[j].index == j;
      var c :| 0 <= c < |es| && es[c] == d[j];
      assert rest[c - 1] == d[j];
    }
    forall x | x in rest
      ensures x.index in d - {i}
    {
      assert x in es;
    }
  }

  /** Dropping the first entry, at index `i`, leaves entries that replay from `i + 1` on. */
  lemma PositionsReplayTail(olds: seq<FieldData>, news: seq<FieldData>, es: seq<FieldDelta>, i: nat)
    requires PositionsReplay(olds, news, es, i) && es != [] && es[0].index == i
    ensures PositionsReplay(olds, news, es[1..], i + 1)
  {
    var rest := es[1..];
    forall x | x in rest
      ensures i + 1 <= x.index
    {
      var b :| 0 <= b < |rest| && rest[b] == x;
      assert es[b + 1] == x;
    }
    forall j | i + 1 <= j < Max(|olds|, |news|) && !HasIndex(rest, j)
      ensures j < |olds| && j < |news| && olds[j] == news[j]
    {
      forall x | x in es
        ensures x.index != j
      {
        if x != es[0] {
          var c :| 0 <= c < |es| && es[c] == x;
          assert rest[c - 1] == x;
        }
      }
      assert !HasIndex(es, j);
    }
  }

  /**
    Occurrence `i`: no entry means both sides hold the same occurrence; an
    entry, applied to the old occurrence (if any), gives the new one (if any).
   */
  lemma PositionReplays(env: Env, desc: Descriptor, k: int32, olds: seq<FieldData>, news: seq<FieldData>, i: nat, ob: nat, nb: nat)
    requires ShorterThan(olds, ob) && ShorterThan(news, nb) && i < Max(|olds|, |news|)
    requires ReplayableNumber(env, desc, k, olds, news, ob, nb)
    requires PositionEntry(env, desc, k, olds, news, i, ob, nb).Success?
    ensures var es := PositionEntry(env, desc, k, olds, news, i, ob, nb).value;
      (es == [] ==> i < |olds| && i < |news| && olds[i] == news[i]) &&
      (es != [] ==> ApplyField(At(olds, i), es[0]) == Success(At(news, i)))
    decreases ob + nb, 0
  {
    var f := Blank(k, i);
    if i >= |olds| {
      ApplyFieldSetNew(None, f, news[i], OldIsNotSet);
    } else if i >= |news| {
    } else if FieldDataEqual(olds[i], news[i]) {
    } else {
      var sub := Resolve(env.schema, env.registry, desc, k);
      if sub.None? {
        ApplyFieldSetNew(Some(olds[i]), SetOld(f, olds[i]), news[i], OldUnspecified);
      } else if news[i].typ == BytesType && olds[i].typ == BytesType {
        EmbeddedReplays(env, sub.value, olds[i], news[i], f);
      }
    }
  }

  /**
    A differing embedded occurrence: the nested delta folded into the record
    rebuilds the new occurrence; there is always one, since two canonical
    buffers that parse alike are equal.
   */
  lemma EmbeddedReplays(env: Env, sub: Descriptor, o: FieldData, n: FieldData, f: FieldDelta)
    requires o.typ == BytesType && n.typ == BytesType && Plain(o) && Plain(n) && o != n
    requires CanonicalBuffer(o.bytes) && CanonicalBuffer(n.bytes) && Replayable(env, sub, o.bytes, n.bytes)
    requires Diff(env, o.bytes, n.bytes, sub).Success?
    requires f.newVarint == 0 && f.newFixed32 == 0 && f.newFixed64 == 0
    ensures var m := Diff(env, o.bytes, n.bytes, sub).value;
      m.Some? && ApplyField(Some(o), Fold(f, m.value)) == Success(Some(n))
    decreases |o.bytes| + |n.bytes|, 7
  {
    DiffApply(env, sub, o.bytes, n.bytes);
    var m := Diff(env, o.bytes, n.bytes, sub).value;
    DiffShape(env, o.bytes, n.bytes, sub);
    FoldApplies(o, f, m);
  }

  // ---------------------------------------------------------------------------
  // The deltas getDelta returns

  /** A delta getDelta can return: never UNCHANGED, and with a new side applySerialized acts on. */
  ghost predicate Shaped(m: MessageDelta) {
    !m.flags.unchangedMarker &&
    (m.flags.newSide == NewIsEmptyBytes || (m.flags.newSide == NewUnspecified && (m.newBytes != [] || m.fields != [])))
  }

  lemma DiffShape(env: Env, oldBuf: seq<byte>, newBuf: seq<byte>, desc: Descriptor)
    ensures Diff(env, oldBuf, newBuf, desc).Success? && Diff(env, oldBuf, newBuf, desc).value.Some? ==>
      Shaped(Diff(env, oldBuf, newBuf, desc).value.value)
  {
  }

  function AsBytesField(r: Result<seq<byte>>): Result<Option<FieldData>> {
    if r.Failure? then Failure(r.error) else Success(Some(BytesField(r.value)))
  }

  /** A nested delta folded into a record acts on a bytes occurrence as applySerialized acts on its bytes. */
  lemma FoldApplies(o: FieldData, f: FieldDelta, m: Option<MessageDelta>)
    requires o.typ == BytesType && f.newVarint == 0 && f.newFixed32 == 0 && f.newFixed64 == 0
    ensures m.Some? && Shaped(m.value) ==> ApplyField(Some(o), Fold(f, m.value)) == AsBytesField(Apply(o.bytes, m.value))
  {
  }

  /** The entries getDelta collects for number `k` are exactly the collected entries with that number. */
  lemma {:induction false} EntriesOfNumber(env: Env, desc: Descriptor, om: FieldMap, nm: FieldMap, nums: set<int32>, ob: nat, nb: nat, k: int32)
    requires WellFormedMap(om, ob) && WellFormedMap(nm, nb) && k in nums
    requires NumbersEntries(env, desc, om, nm, nums, ob, nb).Success?
    ensures IndexEntries(env, desc, k, Get(om, k), Get(nm, k), 0, ob, nb).Success?
    ensures var es := IndexEntries(env, desc, k, Get(om, k), Get(nm, k), 0, ob, nb).value;
      var fields := NumbersEntries(env, desc, om, nm, nums, ob, nb).value;
      (forall e | e in es :: e in fields && e.number == k) &&
      (forall e | e in fields && e.number == k :: e in es)
    decreases nums
  {
    var m0 := MinOf(nums);
    var head := IndexEntries(env, desc, m0, Get(om, m0), Get(nm, m0), 0, ob, nb).value;
    IndexEntriesShape(env, desc, m0, Get(om, m0), Get(nm, m0), 0, ob, nb);
    var tail := NumbersEntries(env, desc, om, nm, nums - {m0}, ob, nb).value;
    assert NumbersEntries(env, desc, om, nm, nums, ob, nb).value == head + tail;
    forall e | e in head
      ensures e.number == m0
    {
      var a :| 0 <= a < |head| && head[a] == e;
    }
    if k == m0 {
      EntriesStrictlySorted(env, desc, om, nm, nums - {m0}, ob, nb);
    } else {
      EntriesOfNumber(env, desc, om, nm, nums - {m0}, ob, nb, k);
    }
  }

  /** The map the patch files number `k`'s entries in is the one PatchFromReplay expects. */
  lemma DeltaFieldMapMatches(env: Env, desc: Descriptor, om: FieldMap, nm: FieldMap, nums: set<int32>, ob: nat, nb: nat, k: int32)
    requires WellFormedMap(om, ob) && WellFormedMap(nm, nb) && k in nums
    requires NumbersEntries(env, desc, om, nm, nums, ob, nb).Success?
    ensures IndexEntries(env, desc, k, Get(om, k), Get(nm, k), 0, ob, nb).Success?
    ensures var fields := NumbersEntries(env, desc, om, nm, nums, ob, nb).value;
      var dm := DeltaFieldMap(fields);
      Matches(if k in dm then dm[k] else map[], IndexEntries(env, desc, k, Get(om, k), Get(nm, k), 0, ob, nb).value) &&
      forall j | k in dm && j in dm[k] :: dm[k][j] in fields
  {
    var fields := NumbersEntries(env, desc, om, nm, nums, ob, nb).value;
    var dm := DeltaFieldMap(fields);
    EntriesOfNumber(env, desc, om, nm, nums, ob, nb, k);
    var es := IndexEntries(env, desc, k, Get(om, k), Get(nm, k), 0, ob, nb).value;
    forall e | e in es
      ensures k in dm && e.index in dm[k]
    {
      DeltaFieldMapHas(fields, e);
    }
  }

  // ---------------------------------------------------------------------------
  // Writing a map with empty occurrence lists

  /** A number without occurrences writes nothing. */
  lemma {:induction false} FlattenDropEmpty(t: FieldMap, k: int32)
    requires k in t && t[k] == []
    ensures Flatten(t) == Flatten(t - {k})
    decreases t
  {
    var m0 := MinOf(t.Keys);
    if m0 != k {
      var u := t - {k};
      assert m0 in u.Keys;
      assert MinOf(u.Keys) == m0;
      FlattenDropEmpty(t - {m0}, k);
      assert t - {m0} - {k} == u - {m0};
    }
  }

  /** A map that only adds numbers without occurrences to `m` writes as `m` does. */
  lemma {:induction false} FlattenExtraEmpty(t: FieldMap, m: FieldMap)
    requires m.Keys <= t.Keys && (forall k | k in m :: t[k] == m[k])
    requires forall k | k in t && k !in m :: t[k] == []
    ensures Marshal(t) == Marshal(m)
    decreases |t.Keys|
  {
    if k :| k in t && k !in m {
      FlattenDropEmpty(t, k);
      FlattenExtraEmpty(t - {k}, m);
    } else {
      assert t == m;
    }
  }
}
