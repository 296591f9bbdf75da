/**
  The wire codec of the delta engine: a buffer parses into a map from field
  number to the ordered occurrences of that number (parseMessage), and such a
  map is written back as tag/payload pairs (marshalMessage).
 */
module Codec {
  import opened Wrappers
  import opened Wire

  /**
    One occurrence of a field (the source's fieldData). Only the member that
    belongs to `typ` is set by the parser; the others stay zero.
   */
  datatype FieldData = FieldData(typ: WireType, bytes: seq<byte>, varint: uint64, fixed32: uint32, fixed64: uint64)

  function BytesField(b: seq<byte>): FieldData { FieldData(BytesType, b, 0, 0, 0) }
  function VarintField(v: uint64): FieldData { FieldData(VarintType, [], v, 0, 0) }
  function Fixed32Field(v: uint32): FieldData { FieldData(Fixed32Type, [], 0, v, 0) }
  function Fixed64Field(v: uint64): FieldData { FieldData(Fixed64Type, [], 0, 0, v) }

  /** The occurrence with every member outside its wire type cleared: what a parse of it gives back. */
  function Canon(d: FieldData): FieldData {
    match d.typ
    case BytesType => BytesField(d.bytes)
    case VarintType => VarintField(d.varint)
    case Fixed32Type => Fixed32Field(d.fixed32)
    case Fixed64Type => Fixed64Field(d.fixed64)
  }

  predicate Canonical(d: FieldData) {
    d == Canon(d)
  }

  /** A length-delimited payload whose length a uint64 varint can carry. */
  predicate Encodable(d: FieldData) {
    |d.bytes| <= MaxUint64
  }

  /** fieldDataEqual: the type and all four value members agree. */
  function FieldDataEqual(a: FieldData, b: FieldData): (r: bool)
    ensures r <==> a == b
  {
    a.typ == b.typ && a.bytes == b.bytes && a.varint == b.varint &&
    a.fixed32 == b.fixed32 && a.fixed64 == b.fixed64
  }

  /** One tag/payload pair of a buffer, in encounter order. */
  datatype Record = Record(number: int32, data: FieldData)

  /** The parsed form of a buffer: each field number with its occurrences in encounter order. */
  type FieldMap = map<int32, seq<FieldData>>

  function Get(m: FieldMap, k: int32): seq<FieldData> {
    if k in m then m[k] else []
  }

  // ---------------------------------------------------------------------------
  // Parsing

  /**
    One iteration of the parse loop: a tag, then the payload its wire type calls
    for. The result is the record and the number of bytes it took.
   */
  function ConsumeField(b: seq<byte>): (r: Result<(Record, nat)>)
    ensures r.Success? ==> 0 < r.value.1 <= |b|
  {
    match ConsumeVarint(b)
    case None => Failure(ParsingError)
    case Some((v, n)) => FieldAfterTag(b, v, n)
  }

  /**
    The rest of ConsumeField once the tag `v` has been read from the first `n`
    bytes: a field number that is not positive, or a tag beyond 32 bits, is a
    parse error; otherwise the payload follows.
   */
  function FieldAfterTag(b: seq<byte>, v: uint64, n: nat): (r: Result<(Record, nat)>)
    requires n <= |b|
    ensures r.Success? ==> n <= r.value.1 <= |b|
  {
    var (num, code) := DecodeTag(v);
    if num <= 0 || v > MaxUint32 then Failure(ParsingError)
    else Numbered(num, n, ConsumePayload(code, b[n..]))
  }

  /**
    A payload result turned into a record of field `num` that took `n` more
    bytes before it. Its ensures only unfolds it for the proofs that use it;
    RecordRoundTrip says what a record read means.
   */
  function Numbered(num: int32, n: nat, p: Result<(FieldData, nat)>): (r: Result<(Record, nat)>)
    ensures r.Success? <==> p.Success?
    ensures r.Success? ==> r.value.0 == Record(num, p.value.0) && r.value.1 == n + p.value.1
  {
    match p
    case Failure(e) => Failure(e)
    case Success((data, m)) => Success((Record(num, data), n + m))
  }

  /** The payload that follows a tag with wire-type code `code`, and the bytes it took. */
  function ConsumePayload(code: nat, b: seq<byte>): (r: Result<(FieldData, nat)>)
    ensures r.Success? ==> r.value.1 <= |b|
  {
    if code == 2 then
      match ConsumeVarint(b)
      case None => Failure(ParsingError)
      case Some((len, m)) =>
        if |b| - m < len then Failure(ParsingError)
        else Success((BytesField(b[m..m + len]), m + len))
    else if code == 0 then
      match ConsumeVarint(b)
      case None => Failure(ParsingError)
      case Some((x, m)) => Success((VarintField(x), m))
    else if code == 5 then
      match ConsumeFixed32(b)
      case None => Failure(ParsingError)
      case Some((x, m)) => Success((Fixed32Field(x), m))
    else if code == 1 then
      match ConsumeFixed64(b)
      case None => Failure(ParsingError)
      case Some((x, m)) => Success((Fixed64Field(x), m))
    else if code == 3 || code == 4 then Failure(GroupsUnsupported)
    else Failure(ParsingError)
  }

  /** The records of a buffer, consuming all of it, or the first error. */
  function ParseRecords(b: seq<byte>): (r: Result<seq<Record>>)
    decreases |b|
  {
    if |b| == 0 then Success([])
    else
      match ConsumeField(b)
      case Failure(e) => Failure(e)
      case Success((rec, n)) => Prepend([rec], ParseRecords(b[n..]))
  }

  /** The occurrences of field number k among the records, in order. */
  function Occurrences(rs: seq<Record>, k: int32): seq<FieldData> {
    if rs == [] then []
    else
      var last := rs[|rs| - 1];
      Occurrences(rs[..|rs| - 1], k) + (if last.number == k then [last.data] else [])
  }

  /** The field map the parse loop builds by appending each record under its number. */
  function Group(rs: seq<Record>): FieldMap {
    if rs == [] then map[]
    else
      var last := rs[|rs| - 1];
      var m := Group(rs[..|rs| - 1]);
      m[last.number := Get(m, last.number) + [last.data]]
  }

  /** Grouping keeps, for every number, exactly its occurrences in encounter order. */
  lemma {:induction false} GroupIsOccurrences(rs: seq<Record>)
    ensures forall k :: k in Group(rs) <==> Occurrences(rs, k) != []
    ensures forall k | k in Group(rs) :: Group(rs)[k] == Occurrences(rs, k)
  {
    if rs != [] {
      GroupIsOccurrences(rs[..|rs| - 1]);
    }
  }

  /** parseMessage, as a function of the buffer. */
  function Parse(b: seq<byte>): Result<FieldMap> {
    match ParseRecords(b)
    case Failure(e) => Failure(e)
    case Success(rs) => Success(Group(rs))
  }

  /** A successful parse has valid numbers, non-empty occurrence lists and canonical occurrences. */
  predicate WellFormedMap(m: FieldMap, size: nat) {
    forall k | k in m :: ValidNumber(k) && m[k] != [] &&
      forall i | 0 <= i < |m[k]| :: Canonical(m[k][i]) && Encodable(m[k][i]) && |m[k][i].bytes| < size
  }

  lemma {:induction false} OccurrencesFrom(rs: seq<Record>, k: int32, i: nat)
    requires i < |Occurrences(rs, k)|
    ensures exists j :: 0 <= j < |rs| && rs[j].number == k && rs[j].data == Occurrences(rs, k)[i]
  {
    var init := rs[..|rs| - 1];
    if i < |Occurrences(init, k)| {
      OccurrencesFrom(init, k, i);
      var j :| 0 <= j < |init| && init[j].number == k && init[j].data == Occurrences(init, k)[i];
      assert rs[j] == init[j];
    } else {
      assert rs[|rs| - 1].data == Occurrences(rs, k)[i];
    }
  }

  /** What the parser guarantees of each record of a buffer of `size` bytes. */
  predicate WellFormedRecord(rec: Record, size: nat) {
    ValidNumber(rec.number) && Canonical(rec.data) && Encodable(rec.data) && |rec.data.bytes| < size
  }

  lemma PayloadWellFormed(code: nat, b: seq<byte>)
    requires ConsumePayload(code, b).Success?
    ensures WellFormedRecord(Record(1, ConsumePayload(code, b).value.0), |b|)
  {
  }

  lemma ConsumeFieldWellFormed(b: seq<byte>)
    requires ConsumeField(b).Success?
    ensures WellFormedRecord(ConsumeField(b).value.0, |b|)
  {
    var (v, n) := ConsumeVarint(b).value;
    PayloadWellFormed(DecodeTag(v).1, b[n..]);
  }

  lemma {:induction false} ParseRecordsWellFormed(b: seq<byte>)
    requires ParseRecords(b).Success?
    ensures forall i | 0 <= i < |ParseRecords(b).value| :: WellFormedRecord(ParseRecords(b).value[i], |b|)
    decreases |b|
  {
    if |b| > 0 {
      var (rec, n) := ConsumeField(b).value;
      ConsumeFieldWellFormed(b);
      ParseRecordsWellFormed(b[n..]);
      var rest := ParseRecords(b[n..]).value;
      assert ParseRecords(b).value == [rec] + rest;
      forall i | 0 <= i < |ParseRecords(b).value|
        ensures WellFormedRecord(ParseRecords(b).value[i], |b|)
      {
        if i > 0 {
          assert ParseRecords(b).value[i] == rest[i - 1];
        }
      }
    }
  }

  lemma ParsedWellFormed(b: seq<byte>)
    requires Parse(b).Success?
    ensures WellFormedMap(Parse(b).value, |b|)
  {
    var rs := ParseRecords(b).value;
    ParseRecordsWellFormed(b);
    GroupIsOccurrences(rs);
    var m := Group(rs);
    forall k, i | k in m && 0 <= i < |m[k]|
      ensures ValidNumber(k) && Canonical(m[k][i]) && Encodable(m[k][i]) && |m[k][i].bytes| < |b|
    {
      OccurrencesFrom(rs, k, i);
    }
    forall k | k in m
      ensures ValidNumber(k)
    {
      OccurrencesFrom(rs, k, 0);
    }
  }

  /** One step of ParseRecords: the first record, then the records of the rest. */
  lemma ParseRecordsStep(b: seq<byte>, rec: Record, n: nat, tail: seq<Record>)
    requires |b| > 0 && ConsumeField(b) == Success((rec, n))
    requires ParseRecords(b[n..]) == Success(tail)
    ensures ParseRecords(b) == Success([rec] + tail)
  {
  }

  lemma PrependNothing<T>(r: Result<seq<T>>)
    ensures Prepend([], r) == r
  {
    if r.Success? {
      assert [] + r.value == r.value;
    }
  }

  lemma PrependTwice<T>(a: seq<T>, b: seq<T>, r: Result<seq<T>>)
    ensures Prepend(a, Prepend(b, r)) == Prepend(a + b, r)
  {
    if r.Success? {
      assert a + (b + r.value) == (a + b) + r.value;
    }
  }

  // ConsumeField read off path by path, once the tag is known.

  lemma ConsumeFieldBadTag(b: seq<byte>, v: uint64, n: nat)
    requires ConsumeVarint(b) == Some((v, n)) && (DecodeTag(v).0 <= 0 || v > MaxUint32)
    ensures ConsumeField(b) == Failure(ParsingError)
  {
  }

  lemma ConsumeFieldBadPayload(b: seq<byte>, v: uint64, n: nat, e: Error)
    requires ConsumeVarint(b) == Some((v, n)) && DecodeTag(v).0 > 0 && v <= MaxUint32
    requires ConsumePayload(DecodeTag(v).1, b[n..]) == Failure(e)
    ensures ConsumeField(b) == Failure(e)
  {
  }

  lemma ConsumeFieldGood(b: seq<byte>, v: uint64, n: nat, code: nat, m: nat, rec: Record, total: nat)
    requires ConsumeVarint(b) == Some((v, n))
    requires DecodeTag(v).0 == rec.number && DecodeTag(v).1 == code && rec.number > 0 && v <= MaxUint32
    requires ConsumePayload(code, b[n..]) == Success((rec.data, m)) && total == n + m
    ensures ConsumeField(b) == Success((rec, total))
  {
    assert FieldAfterTag(b, v, n) == Numbered(rec.number, n, Success((rec.data, m)));
  }

  /** The body of the parse loop: decode the tag and check it, then read the payload. */
  method ConsumeOne(b: seq<byte>) returns (r: Result<(Record, nat)>)
    ensures r == ConsumeField(b)
  {
    var tag := ConsumeVarint(b);
    if tag.None? {
      return Failure(ParsingError);
    }
    r := ReadField(b, tag.value.0, tag.value.1);
  }

  /** The rest of the loop body once the tag `v` (taking `n` bytes) is read. */
  method ReadField(b: seq<byte>, v: uint64, n: nat) returns (r: Result<(Record, nat)>)
    requires n <= |b|
    ensures r == FieldAfterTag(b, v, n)
  {
    var num, typ := DecodeTag(v).0, DecodeTag(v).1;
    if num <= 0 || v > MaxUint32 {
      return Failure(ParsingError);
    }
    var payload := ReadPayload(typ, b[n..]);
    r := Numbered(num, n, payload);
  }

  method ReadPayload(typ: nat, b: seq<byte>) returns (r: Result<(FieldData, nat)>)
    ensures r == ConsumePayload(typ, b)
  {
    if typ == 2 {
      var len := ConsumeVarint(b);
      if len.None? || |b| - len.value.1 < len.value.0 {
        return Failure(ParsingError);
      }
      var m := len.value.1;
      r := Success((BytesField(b[m..m + len.value.0]), m + len.value.0));
    } else if typ == 0 {
      var x := ConsumeVarint(b);
      if x.None? {
        return Failure(ParsingError);
      }
      r := Success((VarintField(x.value.0), x.value.1));
    } else if typ == 5 {
      var x := ConsumeFixed32(b);
      if x.None? {
        return Failure(ParsingError);
      }
      r := Success((Fixed32Field(x.value.0), x.value.1));
    } else if typ == 1 {
      var x := ConsumeFixed64(b);
      if x.None? {
        return Failure(ParsingError);
      }
      r := Success((Fixed64Field(x.value.0), x.value.1));
    } else if typ == 3 || typ == 4 {
      r := Failure(GroupsUnsupported);
    } else {
      r := Failure(ParsingError);
    }
  }

  /**
    parseMessage: the loop consumes the buffer one tag/payload pair at a time and
    appends each occurrence to the list of its field number.
   */
  method ParseMessage(b: seq<byte>) returns (r: Result<FieldMap>)
    ensures r == Parse(b)
  {
    var fields: FieldMap := map[];
    var rest := b;
    ghost var done: seq<Record> := [];
    assert Prepend([], ParseRecords(b)) == ParseRecords(b) by {
      if ParseRecords(b).Success? {
        assert [] + ParseRecords(b).value == ParseRecords(b).value;
      }
    }
    while |rest| > 0
      invariant ParseRecords(b) == Prepend(done, ParseRecords(rest))
      invariant fields == Group(done)
      decreases |rest|
    {
      var step := ConsumeOne(rest);
      if step.Failure? {
        return Failure(step.error);
      }
      var rec, n := step.value.0, step.value.1;
      assert ParseRecords(rest) == Prepend([rec], ParseRecords(rest[n..]));
      PrependTwice(done, [rec], ParseRecords(rest[n..]));
      rest := rest[n..];
      fields := fields[rec.number := Get(fields, rec.number) + [rec.data]];
      assert (done + [rec])[..|done|] == done;
      done := done + [rec];
    }
    assert done + [] == done;
    return Success(fields);
  }

  // ---------------------------------------------------------------------------
  // Marshalling

  /** The payload written after a tag (AppendBytes, AppendVarint, AppendFixed32, AppendFixed64). */
  function EncodePayload(d: FieldData): seq<byte> {
    match d.typ
    case BytesType => EncodeVarint(|d.bytes|) + d.bytes
    case VarintType => EncodeVarint(d.varint)
    case Fixed32Type => AppendFixed32(d.fixed32)
    case Fixed64Type => AppendFixed64(d.fixed64)
  }

  function EncodeRecord(r: Record): seq<byte> {
    EncodeVarint(EncodeTag(r.number, r.data.typ)) + EncodePayload(r.data)
  }

  /** The concatenation of byte chunks, first to last. */
  function Concat(chunks: seq<seq<byte>>): seq<byte> {
    if chunks == [] then [] else chunks[0] + Concat(chunks[1..])
  }

  function EncodeRecords(rs: seq<Record>): seq<byte> {
    Concat(seq(|rs|, i requires 0 <= i < |rs| => EncodeRecord(rs[i])))
  }

  /**
    The occurrences of one field number as records. Its ensures only unfolds
    it; OccurrencesFlatten says what the written records hold.
   */
  function FieldRecords(num: int32, ds: seq<FieldData>): (rs: seq<Record>)
    ensures |rs| == |ds| && forall i | 0 <= i < |ds| :: rs[i] == Record(num, ds[i])
  {
    seq(|ds|, i requires 0 <= i < |ds| => Record(num, ds[i]))
  }

  /** All records of a field map, number by number in ascending order, each number's occurrences in order. */
  function Flatten(m: FieldMap): seq<Record>
    decreases m
  {
    if m == map[] then []
    else
      var k := MinOf(m.Keys);
      FieldRecords(k, m[k]) + Flatten(m - {k})
  }

  /** marshalMessage, as a function of the map (numbers taken in ascending order). */
  function Marshal(m: FieldMap): seq<byte> {
    EncodeRecords(Flatten(m))
  }

  function Restrict(m: FieldMap, keys: set<int32>): FieldMap {
    map k | k in keys && k in m :: m[k]
  }

  lemma {:induction false} ConcatAppend(a: seq<seq<byte>>, b: seq<seq<byte>>)
    ensures Concat(a + b) == Concat(a) + Concat(b)
  {
    if a == [] {
      assert a + b == b;
      assert Concat(a) == [];
    } else {
      var ab := a + b;
      assert ab[0] == a[0];
      assert ab[1..] == a[1..] + b;
      ConcatAppend(a[1..], b);
      assert Concat(ab) == a[0] + Concat(a[1..] + b);
      assert Concat(a) == a[0] + Concat(a[1..]);
    }
  }

  lemma EncodeRecordsAppend(a: seq<Record>, b: seq<Record>)
    ensures EncodeRecords(a + b) == EncodeRecords(a) + EncodeRecords(b)
  {
    var ca := seq(|a|, i requires 0 <= i < |a| => EncodeRecord(a[i]));
    var cb := seq(|b|, i requires 0 <= i < |b| => EncodeRecord(b[i]));
    var ab := a + b;
    assert seq(|ab|, i requires 0 <= i < |ab| => EncodeRecord(ab[i])) == ca + cb;
    ConcatAppend(ca, cb);
  }

  lemma EncodeRecordsSingle(r: Record)
    ensures EncodeRecords([r]) == EncodeRecord(r)
  {
    var c := seq(1, i requires 0 <= i < 1 => EncodeRecord([r][i]));
    assert c == [EncodeRecord(r)];
    assert Concat(c) == EncodeRecord(r) + Concat([]);
  }

  /** Taking the smallest remaining number off a restriction of the map. */
  lemma MarshalStep(m: FieldMap, rest: set<int32>, k: int32)
    requires rest <= m.Keys && k in rest && forall x | x in rest :: k <= x
    ensures Marshal(Restrict(m, rest)) == EncodeRecords(FieldRecords(k, m[k])) + Marshal(Restrict(m, rest - {k}))
  {
    var r := Restrict(m, rest);
    assert r.Keys == rest;
    assert r != map[];
    assert MinOf(r.Keys) == k;
    assert r - {k} == Restrict(m, rest - {k});
    EncodeRecordsAppend(FieldRecords(k, m[k]), Flatten(r - {k}));
  }

  lemma FieldRecordsStep(num: int32, fields: seq<FieldData>, j: nat)
    requires j < |fields|
    ensures EncodeRecords(FieldRecords(num, fields[..j + 1]))
         == EncodeRecords(FieldRecords(num, fields[..j])) + EncodeRecord(Record(num, fields[j]))
  {
    assert FieldRecords(num, fields[..j + 1]) == FieldRecords(num, fields[..j]) + [Record(num, fields[j])];
    EncodeRecordsAppend(FieldRecords(num, fields[..j]), [Record(num, fields[j])]);
    EncodeRecordsSingle(Record(num, fields[j]));
  }

  lemma OccurrencesLoopStep(out: seq<byte>, num: int32, fields: seq<FieldData>, j: nat, before: seq<byte>, after: seq<byte>)
    requires j < |fields|
    requires before == out + EncodeRecords(FieldRecords(num, fields[..j]))
    requires after == before + EncodeRecord(Record(num, fields[j]))
    ensures after == out + EncodeRecords(FieldRecords(num, fields[..j + 1]))
  {
    FieldRecordsStep(num, fields, j);
    Extend(after, out, EncodeRecords(FieldRecords(num, fields[..j])), EncodeRecord(Record(num, fields[j])),
      EncodeRecords(FieldRecords(num, fields[..j + 1])));
  }

  /** One occurrence: its tag, then the payload of its wire type. */
  method AppendOccurrence(out: seq<byte>, num: int32, d: FieldData) returns (r: seq<byte>)
    ensures r == out + EncodeRecord(Record(num, d))
  {
    r := out + EncodeVarint(EncodeTag(num, d.typ));
    match d.typ
    case BytesType => r := r + (EncodeVarint(|d.bytes|) + d.bytes);
    case VarintType => r := r + EncodeVarint(d.varint);
    case Fixed32Type => r := r + AppendFixed32(d.fixed32);
    case Fixed64Type => r := r + AppendFixed64(d.fixed64);
  }

  /** The inner loop of marshalMessage: one field number's occurrences in order. */
  method AppendOccurrences(out: seq<byte>, num: int32, fields: seq<FieldData>) returns (r: seq<byte>)
    ensures r == out + EncodeRecords(FieldRecords(num, fields))
  {
    r := out;
    for j := 0 to |fields|
      invariant r == out + EncodeRecords(FieldRecords(num, fields[..j]))
    {
      ghost var before := r;
      r := AppendOccurrence(r, num, fields[j]);
      OccurrencesLoopStep(out, num, fields, j, before, r);
    }
    assert fields[..|fields|] == fields;
  }

  lemma Extend(whole: seq<byte>, before: seq<byte>, a: seq<byte>, b: seq<byte>, ab: seq<byte>)
    requires whole == (before + a) + b && ab == a + b
    ensures whole == before + ab
  {
  }

  lemma Regroup(whole: seq<byte>, before: seq<byte>, head: seq<byte>, tail: seq<byte>, after: seq<byte>)
    requires whole == before + (head + tail) && after == before + head
    ensures whole == after + tail
  {
  }

  lemma MarshalLoopStep(m: FieldMap, rest: set<int32>, k: int32, before: seq<byte>, after: seq<byte>)
    requires rest <= m.Keys && k in rest && forall x | x in rest :: k <= x
    requires Marshal(m) == before + Marshal(Restrict(m, rest))
    requires after == before + EncodeRecords(FieldRecords(k, m[k]))
    ensures Marshal(m) == after + Marshal(Restrict(m, rest - {k}))
  {
    MarshalStep(m, rest, k);
    Regroup(Marshal(m), before, EncodeRecords(FieldRecords(k, m[k])), Marshal(Restrict(m, rest - {k})), after);
  }

  lemma RestrictAll(m: FieldMap)
    ensures Restrict(m, m.Keys) == m
  {
  }

  lemma MarshalEmpty(m: FieldMap)
    ensures Marshal(Restrict(m, {})) == []
  {
    assert Restrict(m, {}) == map[];
    assert Flatten(map[]) == [];
    assert Concat([]) == [];
  }

  /**
    marshalMessage: for every field number (smallest first) and every occurrence
    of it in order, a tag and the payload of the occurrence's wire type.
   */
  method MarshalMessage(m: FieldMap) returns (out: seq<byte>)
    ensures out == Marshal(m)
  {
    out := [];
    var rest := m.Keys;
    RestrictAll(m);
    while rest != {}
      invariant rest <= m.Keys
      invariant Marshal(m) == out + Marshal(Restrict(m, rest))
      decreases rest
    {
      var num := MinOf(rest);
      ghost var before := out;
      out := AppendOccurrences(out, num, m[num]);
      MarshalLoopStep(m, rest, num, before, out);
      rest := rest - {num};
    }
    MarshalEmpty(m);
  }
}
