/**
  Properties of the wire codec: every occurrence this codec writes reads back,
  and a field map written by marshalMessage parses back to the same map (up to
  numbers without occurrences and members outside an occurrence's wire type).
  Byte order across different numbers is not claimed; the round trip is
  stated through the parser.
 */
module CodecProofs {
  import opened Wrappers
  import opened Wire
  import opened Codec

  /** The record as a parse of its encoding yields it. */
  function CanonRecord(r: Record): Record {
    Record(r.number, Canon(r.data))
  }

  function CanonRecords(rs: seq<Record>): (cs: seq<Record>)
    ensures |cs| == |rs| && forall i | 0 <= i < |rs| :: cs[i] == CanonRecord(rs[i])
  {
    seq(|rs|, i requires 0 <= i < |rs| => CanonRecord(rs[i]))
  }

  function CanonAll(ds: seq<FieldData>): (cs: seq<FieldData>)
    ensures |cs| == |ds| && forall i | 0 <= i < |ds| :: cs[i] == Canon(ds[i])
  {
    seq(|ds|, i requires 0 <= i < |ds| => Canon(ds[i]))
  }

  predicate EncodableRecord(r: Record) {
    ValidNumber(r.number) && Encodable(r.data)
  }

  /** A map marshalMessage can write so that parseMessage accepts it again. */
  predicate EncodableMap(m: FieldMap) {
    forall k | k in m :: ValidNumber(k) && forall i | 0 <= i < |m[k]| :: Encodable(m[k][i])
  }

  /** What a parse gives back of a map: numbers without occurrences dropped, occurrences canonical. */
  function Normalize(m: FieldMap): FieldMap {
    map k | k in m && m[k] != [] :: CanonAll(m[k])
  }

  // ---------------------------------------------------------------------------
  // One record

  lemma PayloadRoundTrip(d: FieldData, rest: seq<byte>)
    requires Encodable(d)
    ensures ConsumePayload(TypeCode(d.typ), EncodePayload(d) + rest) == Success((Canon(d), |EncodePayload(d)|))
  {
    match d.typ
    case BytesType =>
      var len := EncodeVarint(|d.bytes|);
      var b := EncodePayload(d) + rest;
      assert b == len + (d.bytes + rest);
      VarintRoundTrip(|d.bytes|, d.bytes + rest);
      assert b[|len|..|len| + |d.bytes|] == d.bytes;
    case VarintType =>
      VarintRoundTrip(d.varint, rest);
    case Fixed32Type =>
      Fixed32RoundTrip(d.fixed32, rest);
    case Fixed64Type =>
      Fixed64RoundTrip(d.fixed64, rest);
  }

  lemma TagBytesRoundTrip(num: int32, typ: WireType, q: seq<byte>)
    requires ValidNumber(num)
    ensures EncodeTag(num, typ) <= MaxUint32
    ensures DecodeTag(EncodeTag(num, typ)) == (num as int, TypeCode(typ))
    ensures ConsumeVarint(EncodeVarint(EncodeTag(num, typ)) + q)
         == Some((EncodeTag(num, typ), |EncodeVarint(EncodeTag(num, typ))|))
  {
    TagRoundTrip(num, typ);
    VarintRoundTrip(EncodeTag(num, typ), q);
  }

  lemma RecordBytes(r: Record, rest: seq<byte>)
    ensures |EncodeRecord(r)| == |EncodeVarint(EncodeTag(r.number, r.data.typ))| + |EncodePayload(r.data)|
    ensures EncodeRecord(r) + rest == EncodeVarint(EncodeTag(r.number, r.data.typ)) + (EncodePayload(r.data) + rest)
  {
  }

  lemma SplitAt(b: seq<byte>, t: seq<byte>, q: seq<byte>)
    requires b == t + q
    ensures b[|t|..] == q
  {
  }

  /** A record's bytes split into its tag `t` and the payload-plus-rest `q` after it. */
  lemma RecordPieces(r: Record, rest: seq<byte>) returns (t: seq<byte>, q: seq<byte>)
    requires EncodableRecord(r)
    ensures EncodeRecord(r) + rest == t + q && |EncodeRecord(r)| == |t| + |EncodePayload(r.data)|
    ensures ConsumeVarint(t + q) == Some((EncodeTag(r.number, r.data.typ), |t|))
    ensures ConsumePayload(TypeCode(r.data.typ), q) == Success((Canon(r.data), |EncodePayload(r.data)|))
  {
    t := EncodeVarint(EncodeTag(r.number, r.data.typ));
    q := EncodePayload(r.data) + rest;
    RecordBytes(r, rest);
    TagBytesRoundTrip(r.number, r.data.typ, q);
    PayloadRoundTrip(r.data, rest);
  }

  /** A record written by marshalMessage reads back, canonical, using exactly its own bytes. */
  lemma RecordRoundTrip(r: Record, rest: seq<byte>)
    requires EncodableRecord(r)
    ensures ConsumeField(EncodeRecord(r) + rest) == Success((CanonRecord(r), |EncodeRecord(r)|))
  {
    var t, q := RecordPieces(r, rest);
    SplitAt(t + q, t, q);
    TagRoundTrip(r.number, r.data.typ);
    ConsumeFieldGood(t + q, EncodeTag(r.number, r.data.typ), |t|, TypeCode(r.data.typ),
      |EncodePayload(r.data)|, CanonRecord(r), |EncodeRecord(r)|);
  }

  lemma EncodeRecordsCons(rs: seq<Record>)
    requires rs != []
    ensures EncodeRecords(rs) == EncodeRecord(rs[0]) + EncodeRecords(rs[1..])
  {
    assert [rs[0]] + rs[1..] == rs;
    EncodeRecordsAppend([rs[0]], rs[1..]);
    EncodeRecordsSingle(rs[0]);
  }

  lemma EncodeRecordsEmpty()
    ensures EncodeRecords([]) == []
  {
  }

  /** Parsing the encoding of a record list gives the list back, canonical. */
  lemma {:induction false} ParseEncoded(rs: seq<Record>)
    requires forall i | 0 <= i < |rs| :: EncodableRecord(rs[i])
    ensures ParseRecords(EncodeRecords(rs)) == Success(CanonRecords(rs))
    decreases |rs|
  {
    if rs == [] {
      EncodeRecordsEmpty();
      assert CanonRecords(rs) == [];
    } else {
      var head, tail := rs[0], rs[1..];
      var e, t := EncodeRecord(head), EncodeRecords(tail);
      EncodeRecordsCons(rs);
      RecordRoundTrip(head, t);
      SplitAt(e + t, e, t);
      ParseEncoded(tail);
      ParseRecordsStep(e + t, CanonRecord(head), |e|, CanonRecords(tail));
      CanonRecordsCons(rs);
    }
  }

  lemma CanonRecordsCons(rs: seq<Record>)
    requires rs != []
    ensures CanonRecords(rs) == [CanonRecord(rs[0])] + CanonRecords(rs[1..])
  {
  }

  // ---------------------------------------------------------------------------
  // Occurrences of a number in a record list

  lemma {:induction false} OccurrencesAppend(a: seq<Record>, b: seq<Record>, k: int32)
    ensures Occurrences(a + b, k) == Occurrences(a, k) + Occurrences(b, k)
    decreases |b|
  {
    if b == [] {
      assert a + b == a;
    } else {
      var ab := a + b;
      assert ab[..|ab| - 1] == a + b[..|b| - 1];
      assert ab[|ab| - 1] == b[|b| - 1];
      OccurrencesAppend(a, b[..|b| - 1], k);
    }
  }

  lemma {:induction false} OccurrencesCanon(rs: seq<Record>, k: int32)
    ensures Occurrences(CanonRecords(rs), k) == CanonAll(Occurrences(rs, k))
    decreases |rs|
  {
    if rs != [] {
      var init := rs[..|rs| - 1];
      assert CanonRecords(rs)[..|rs| - 1] == CanonRecords(init);
      OccurrencesCanon(init, k);
      var last := rs[|rs| - 1];
      var tail := if last.number == k then [last.data] else [];
      assert CanonAll(Occurrences(init, k) + tail) == CanonAll(Occurrences(init, k)) + CanonAll(tail);
    }
  }

  lemma {:induction false} OccurrencesOfField(j: int32, ds: seq<FieldData>, k: int32)
    ensures Occurrences(FieldRecords(j, ds), k) == if j == k then ds else []
    decreases |ds|
  {
    if ds != [] {
      var init := ds[..|ds| - 1];
      assert FieldRecords(j, ds)[..|ds| - 1] == FieldRecords(j, init);
      OccurrencesOfField(j, init, k);
      assert init + [ds[|ds| - 1]] == ds;
    }
  }

  /** Flattening keeps, for every number, exactly that number's occurrences in order. */
  lemma {:induction false} OccurrencesFlatten(m: FieldMap, k: int32)
    ensures Occurrences(Flatten(m), k) == Get(m, k)
    decreases m
  {
    if m != map[] {
      var k0 := MinOf(m.Keys);
      OccurrencesAppend(FieldRecords(k0, m[k0]), Flatten(m - {k0}), k);
      OccurrencesOfField(k0, m[k0], k);
      OccurrencesFlatten(m - {k0}, k);
    }
  }

  lemma {:induction false} FlattenEncodable(m: FieldMap)
    requires EncodableMap(m)
    ensures forall i | 0 <= i < |Flatten(m)| :: EncodableRecord(Flatten(m)[i])
    decreases m
  {
    if m != map[] {
      var k0 := MinOf(m.Keys);
      FlattenEncodable(m - {k0});
      var head := FieldRecords(k0, m[k0]);
      var tail := Flatten(m - {k0});
      forall i | 0 <= i < |head + tail|
        ensures EncodableRecord((head + tail)[i])
      {
        if i >= |head| {
          assert (head + tail)[i] == tail[i - |head|];
        }
      }
    }
  }

  // ---------------------------------------------------------------------------
  // The map round trip

  /** parseMessage(marshalMessage(m)) gives m back, for any map of valid numbers. */
  lemma MarshalRoundTrip(m: FieldMap)
    requires EncodableMap(m)
    ensures Parse(Marshal(m)) == Success(Normalize(m))
  {
    var rs := Flatten(m);
    FlattenEncodable(m);
    ParseEncoded(rs);
    var g := Group(CanonRecords(rs));
    GroupIsOccurrences(CanonRecords(rs));
    forall k
      ensures Occurrences(CanonRecords(rs), k) == CanonAll(Get(m, k))
    {
      OccurrencesCanon(rs, k);
      OccurrencesFlatten(m, k);
    }
    var n := Normalize(m);
    forall k
      ensures k in g <==> k in n
    {
      assert |CanonAll(Get(m, k))| == |Get(m, k)|;
    }
    assert g == n;
  }

  lemma NormalizeWellFormed(m: FieldMap, size: nat)
    requires WellFormedMap(m, size)
    ensures Normalize(m) == m && EncodableMap(m)
  {
    forall k | k in m
      ensures CanonAll(m[k]) == m[k]
    {
    }
  }

  /** Re-serialising a parsed buffer and parsing again gives the same map. */
  lemma ReparseRoundTrip(b: seq<byte>)
    requires Parse(b).Success?
    ensures Parse(Marshal(Parse(b).value)) == Parse(b)
  {
    ParsedWellFormed(b);
    NormalizeWellFormed(Parse(b).value, |b|);
    MarshalRoundTrip(Parse(b).value);
  }

  // ---------------------------------------------------------------------------
  // Buffers the parser refuses

  /** The first record fixes a failed parse's error. */
  lemma ParseFailsWith(b: seq<byte>, e: Error)
    requires b != [] && ConsumeField(b) == Failure(e)
    ensures Parse(b) == Failure(e)
  {
  }

  predicate EncodableRecords(rs: seq<Record>) {
    forall i | 0 <= i < |rs| :: EncodableRecord(rs[i])
  }

  /** One well-formed record before a failing buffer does not change the error. */
  lemma RecordThenFailure(r: Record, t: seq<byte>, e: Error)
    requires EncodableRecord(r) && ParseRecords(t) == Failure(e)
    ensures ParseRecords(EncodeRecord(r) + t) == Failure(e)
  {
    var h := EncodeRecord(r);
    RecordRoundTrip(r, t);
    SplitAt(h + t, h, t);
  }

  lemma AppendEmpty(x: seq<byte>, b: seq<byte>)
    requires x == []
    ensures x + b == b
  {
  }

  lemma AppendAssoc(x: seq<byte>, h: seq<byte>, t: seq<byte>, b: seq<byte>)
    requires x == h + t
    ensures x + b == h + (t + b)
  {
  }

  lemma TailEncodable(rs: seq<Record>)
    requires rs != [] && EncodableRecords(rs)
    ensures EncodableRecords(rs[1..])
  {
    forall i | 0 <= i < |rs| - 1 ensures EncodableRecord(rs[1..][i]) {
      assert rs[1..][i] == rs[i + 1];
    }
  }

  lemma {:induction false} RecordsThenFailure(rs: seq<Record>, b: seq<byte>, e: Error)
    requires EncodableRecords(rs) && ParseRecords(b) == Failure(e)
    ensures ParseRecords(EncodeRecords(rs) + b) == Failure(e)
    decreases |rs|
  {
    if rs == [] {
      EncodeRecordsEmpty();
      AppendEmpty(EncodeRecords(rs), b);
    } else {
      var tail := rs[1..];
      EncodeRecordsCons(rs);
      AppendAssoc(EncodeRecords(rs), EncodeRecord(rs[0]), EncodeRecords(tail), b);
      TailEncodable(rs);
      RecordsThenFailure(tail, b, e);
      RecordThenFailure(rs[0], EncodeRecords(tail) + b, e);
    }
  }

  /**
    The loop reads well-formed records and goes on: a buffer that fails to
    parse fails with the same error after any records marshalMessage writes.
   */
  lemma ParseFailsAfterRecords(rs: seq<Record>, b: seq<byte>, e: Error)
    requires EncodableRecords(rs) && Parse(b) == Failure(e)
    ensures Parse(EncodeRecords(rs) + b) == Failure(e)
  {
    RecordsThenFailure(rs, b, e);
  }

  /** A tag of field number 0 (whatever its wire type) is a parsing error, after any well-formed records. */
  lemma ParseRejectsNumberZero(rs: seq<Record>, code: nat, rest: seq<byte>)
    requires EncodableRecords(rs) && code < 8
    ensures Parse(EncodeRecords(rs) + (EncodeVarint(code) + rest)) == Failure(ParsingError)
  {
    VarintRoundTrip(code, rest);
    ParseFailsWith(EncodeVarint(code) + rest, ParsingError);
    ParseFailsAfterRecords(rs, EncodeVarint(code) + rest, ParsingError);
  }

  /** A tag above 2^32 - 1 is a parsing error, even when its field number would fit, after any well-formed records. */
  lemma ParseRejectsLargeTag(rs: seq<Record>, v: uint64, rest: seq<byte>)
    requires EncodableRecords(rs) && v > MaxUint32
    ensures Parse(EncodeRecords(rs) + (EncodeVarint(v) + rest)) == Failure(ParsingError)
  {
    VarintRoundTrip(v, rest);
    ParseFailsWith(EncodeVarint(v) + rest, ParsingError);
    ParseFailsAfterRecords(rs, EncodeVarint(v) + rest, ParsingError);
  }

  lemma TagOf(num: int32, code: nat)
    requires ValidNumber(num) && code < 8
    ensures num * 8 + code <= MaxUint32 && DecodeTag(num * 8 + code) == (num as int, code)
  {
  }

  /** The bytes of an accepted tag read back as that tag. */
  lemma TagPrefix(num: int32, code: nat, q: seq<byte>)
    requires ValidNumber(num) && code < 8
    ensures num * 8 + code <= MaxUint32 && DecodeTag(num * 8 + code) == (num as int, code)
    ensures ConsumeVarint(EncodeVarint(num * 8 + code) + q) == Some((num * 8 + code, |EncodeVarint(num * 8 + code)|))
  {
    TagOf(num, code);
    VarintRoundTrip(num * 8 + code, q);
  }

  /** A tag the parser accepts, followed by a payload its wire type refuses. */
  lemma PayloadFails(num: int32, code: nat, q: seq<byte>, e: Error)
    requires ValidNumber(num) && code < 8
    requires ConsumePayload(code, q) == Failure(e)
    ensures Parse(EncodeVarint(num * 8 + code) + q) == Failure(e)
  {
    var v := num * 8 + code;
    var t := EncodeVarint(v);
    TagPrefix(num, code, q);
    SplitAt(t + q, t, q);
    ConsumeFieldBadPayload(t + q, v, |t|, e);
    ParseFailsWith(t + q, e);
  }

  /** The group wire types 3 (start) and 4 (end) are refused, after any well-formed records. */
  lemma ParseRejectsGroups(rs: seq<Record>, num: int32, code: nat, rest: seq<byte>)
    requires EncodableRecords(rs) && ValidNumber(num) && (code == 3 || code == 4)
    ensures Parse(EncodeRecords(rs) + (EncodeVarint(num * 8 + code) + rest)) == Failure(GroupsUnsupported)
  {
    PayloadFails(num, code, rest, GroupsUnsupported);
    ParseFailsAfterRecords(rs, EncodeVarint(num * 8 + code) + rest, GroupsUnsupported);
  }

  lemma ShortBytesPayload(len: uint64, rest: seq<byte>)
    requires |rest| < len
    ensures ConsumePayload(2, EncodeVarint(len) + rest) == Failure(ParsingError)
  {
    VarintRoundTrip(len, rest);
  }

  /** A length prefix larger than the bytes that remain is a parsing error, after any well-formed records. */
  lemma ParseRejectsShortPayload(rs: seq<Record>, num: int32, len: uint64, rest: seq<byte>)
    requires EncodableRecords(rs) && ValidNumber(num) && |rest| < len
    ensures Parse(EncodeRecords(rs) + (EncodeVarint(num * 8 + 2) + (EncodeVarint(len) + rest))) == Failure(ParsingError)
  {
    ShortBytesPayload(len, rest);
    PayloadFails(num, 2, EncodeVarint(len) + rest, ParsingError);
    ParseFailsAfterRecords(rs, EncodeVarint(num * 8 + 2) + (EncodeVarint(len) + rest), ParsingError);
  }

  /** A buffer that ends inside a tag is a parsing error, after any well-formed records. */
  lemma ParseRejectsTruncatedTag(rs: seq<Record>, b: seq<byte>)
    requires EncodableRecords(rs) && b != [] && forall i | 0 <= i < |b| :: b[i] >= 0x80
    ensures Parse(EncodeRecords(rs) + b) == Failure(ParsingError)
  {
    UnterminatedVarint(b, 0);
    ParseFailsWith(b, ParsingError);
    ParseFailsAfterRecords(rs, b, ParsingError);
  }

  /** A varint payload cut off before its last byte is a parsing error, after any well-formed records. */
  lemma ParseRejectsTruncatedVarint(rs: seq<Record>, num: int32, rest: seq<byte>)
    requires EncodableRecords(rs) && ValidNumber(num) && forall i | 0 <= i < |rest| :: rest[i] >= 0x80
    ensures Parse(EncodeRecords(rs) + (EncodeVarint(num * 8) + rest)) == Failure(ParsingError)
  {
    UnterminatedVarint(rest, 0);
    PayloadFails(num, 0, rest, ParsingError);
    ParseFailsAfterRecords(rs, EncodeVarint(num * 8) + rest, ParsingError);
  }

  /**
    A fixed32 payload shorter than 4 bytes, or a fixed64 payload shorter than
    8, is a parsing error, after any well-formed records.
   */
  lemma ParseRejectsTruncatedFixed(rs: seq<Record>, num: int32, code: nat, rest: seq<byte>)
    requires EncodableRecords(rs) && ValidNumber(num) && ((code == 5 && |rest| < 4) || (code == 1 && |rest| < 8))
    ensures Parse(EncodeRecords(rs) + (EncodeVarint(num * 8 + code) + rest)) == Failure(ParsingError)
  {
    PayloadFails(num, code, rest, ParsingError);
    ParseFailsAfterRecords(rs, EncodeVarint(num * 8 + code) + rest, ParsingError);
  }

  /**
    Wire-type codes 6 and 7 (the low three bits of a tag can hold them) are a
    parsing error like any other malformed input, after any well-formed
    records.
   */
  lemma ParseRejectsUnknownWireType(rs: seq<Record>, num: int32, code: nat, rest: seq<byte>)
    requires EncodableRecords(rs) && ValidNumber(num) && (code == 6 || code == 7)
    ensures Parse(EncodeRecords(rs) + (EncodeVarint(num * 8 + code) + rest)) == Failure(ParsingError)
  {
    PayloadFails(num, code, rest, ParsingError);
    ParseFailsAfterRecords(rs, EncodeVarint(num * 8 + code) + rest, ParsingError);
  }
}
