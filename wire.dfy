/**
  The Protocol Buffers wire primitives the engine relies on: base 128 varints,
  tags (field number << 3 | wire type), length-delimited payloads and
  little-endian fixed32/fixed64 values, as the Protocol Buffers Encoding guide
  describes them and as the protowire helpers implement them.
 */
module Wire {
  import opened Wrappers

  type byte = b: int | 0 <= b < 0x100
  type uint32 = x: int | 0 <= x < 0x1_0000_0000
  type uint64 = x: int | 0 <= x < 0x1_0000_0000_0000_0000
  type int32 = x: int | -0x8000_0000 <= x < 0x8000_0000

  const MaxUint32: int := 0xFFFF_FFFF
  const MaxInt32: int := 0x7FFF_FFFF
  const MaxUint64: int := 0xFFFF_FFFF_FFFF_FFFF
  /** The largest field number whose tag still fits in 32 bits. */
  const MaxFieldNumber: int := 0x1FFF_FFFF

  /** The four wire types a parsed occurrence can have (groups are refused by the parser). */
  datatype WireType = VarintType | Fixed64Type | BytesType | Fixed32Type

  /** The numeric wire type of the Encoding guide's "Message Structure" table. */
  function TypeCode(t: WireType): (c: nat)
    ensures c < 8 && c != 3 && c != 4
  {
    match t
    case VarintType => 0
    case Fixed64Type => 1
    case BytesType => 2
    case Fixed32Type => 5
  }

  predicate ValidNumber(num: int) {
    1 <= num <= MaxFieldNumber
  }

  // ---------------------------------------------------------------------------
  // Base 128 varints

  /** AppendVarint: seven bits per byte, least significant group first, high bit = "more". */
  function EncodeVarint(v: nat): (r: seq<byte>)
    ensures 1 <= |r|
    ensures (|r| == 1) == (v < 0x80)
    decreases v
  {
    if v < 0x80 then [v] else [v % 0x80 + 0x80] + EncodeVarint(v / 0x80)
  }

  /** protowire.SizeVarint: one byte per started group of seven bits. */
  function SizeVarint(v: nat): (n: nat)
    ensures n >= 1
    decreases v
  {
    if v < 0x80 then 1 else 1 + SizeVarint(v / 0x80)
  }

  /** SizeVarint counts exactly the bytes AppendVarint writes. */
  lemma {:induction false} SizeVarintIsLength(v: nat)
    ensures SizeVarint(v) == |EncodeVarint(v)|
    decreases v
  {
    if v >= 0x80 {
      SizeVarintIsLength(v / 0x80);
    }
  }

  /** Cap(k): one more than the largest value ConsumeVarint can still add up from byte k on. */
  function Cap(k: nat): (c: nat)
    requires k <= 9
    ensures c >= 2
    decreases 9 - k
  {
    if k == 9 then 2 else 0x80 * Cap(k + 1)
  }

  lemma CapZero()
    ensures Cap(0) == 0x1_0000_0000_0000_0000
  {
    assert Cap(9) == 2;
    assert Cap(8) == 0x100;
    assert Cap(7) == 0x8000;
    assert Cap(6) == 0x40_0000;
    assert Cap(5) == 0x2000_0000;
    assert Cap(4) == 0x10_0000_0000;
    assert Cap(3) == 0x800_0000_0000;
    assert Cap(2) == 0x4_0000_0000_0000;
    assert Cap(1) == 0x200_0000_0000_0000;
  }

  /**
    Decoding of a varint whose first byte is byte number k of the encoding:
    at most 10 bytes are read, and the tenth may only be 0 or 1 (anything
    else overflows 64 bits).
   */
  function ConsumeVarintFrom(b: seq<byte>, k: nat): (r: Option<(nat, nat)>)
    requires k <= 9
    ensures r.Some? ==> 1 <= r.value.1 <= |b| && r.value.1 <= 10 - k && r.value.0 < Cap(k)
    decreases 9 - k
  {
    if |b| == 0 then None
    else if k == 9 then (if b[0] > 1 then None else Some((b[0], 1)))
    else if b[0] < 0x80 then Some((b[0], 1))
    else
      match ConsumeVarintFrom(b[1..], k + 1)
      case None => None
      case Some((v, n)) => Some((b[0] - 0x80 + 0x80 * v, n + 1))
  }

  /** protowire.ConsumeVarint: the value and the number of bytes read, or None when truncated or overflowing. */
  function ConsumeVarint(b: seq<byte>): (r: Option<(uint64, nat)>)
    ensures r.Some? ==> 1 <= r.value.1 <= |b| && r.value.1 <= 10
  {
    match ConsumeVarintFrom(b, 0)
    case None => None
    case Some((v, n)) => CapZero(); Some((v, n))
  }

  /** Bytes that all carry the continuation bit never end a varint: the read fails as truncated or overflowing. */
  lemma {:induction false} UnterminatedVarint(b: seq<byte>, k: nat)
    requires k <= 9 && forall i | 0 <= i < |b| :: b[i] >= 0x80
    ensures ConsumeVarintFrom(b, k) == None
    decreases 9 - k
  {
    if |b| > 0 && k < 9 {
      UnterminatedVarint(b[1..], k + 1);
    }
  }

  lemma {:induction false} VarintRoundTripFrom(v: nat, k: nat, rest: seq<byte>)
    requires k <= 9 && v < Cap(k)
    ensures |EncodeVarint(v)| <= 10 - k
    ensures ConsumeVarintFrom(EncodeVarint(v) + rest, k) == Some((v, |EncodeVarint(v)|))
    decreases v
  {
    var e := EncodeVarint(v);
    if v >= 0x80 {
      assert k < 9;
      var low, high := v % 0x80, v / 0x80;
      var tail := EncodeVarint(high);
      var b := [low + 0x80] + (tail + rest);
      assert e + rest == b;
      VarintRoundTripFrom(high, k + 1, rest);
      assert b[1..] == tail + rest;
      assert b[0] - 0x80 + 0x80 * high == v;
      VarintStep(b, k, high, |tail|, v);
      assert |e| == |tail| + 1;
    } else {
      assert e + rest == [v] + rest;
      assert ConsumeVarintFrom([v] + rest, k) == Some((v, 1));
    }
  }

  /** ConsumeVarintFrom on a byte with the "more" bit set, below the tenth byte. */
  lemma VarintStep(b: seq<byte>, k: nat, high: nat, n: nat, v: nat)
    requires 0 < |b| && k < 9 && b[0] >= 0x80
    requires ConsumeVarintFrom(b[1..], k + 1) == Some((high, n)) && v == b[0] - 0x80 + 0x80 * high
    ensures ConsumeVarintFrom(b, k) == Some((v, n + 1))
  {
  }

  /** Decoding a varint that was encoded gives the value back and consumes exactly its bytes. */
  lemma VarintRoundTrip(v: uint64, rest: seq<byte>)
    ensures SizeVarint(v) <= 10
    ensures ConsumeVarint(EncodeVarint(v) + rest) == Some((v, |EncodeVarint(v)|))
  {
    SizeVarintIsLength(v);
    CapZero();
    VarintRoundTripFrom(v, 0, rest);
  }

  // ---------------------------------------------------------------------------
  // Non-varint numbers: little-endian fixed32 and fixed64

  function Pow256(n: nat): (p: nat)
    ensures p >= 1
  {
    if n == 0 then 1 else 0x100 * Pow256(n - 1)
  }

  function DecodeLittleEndian(b: seq<byte>): (v: nat)
    ensures v < Pow256(|b|)
  {
    if b == [] then 0 else b[0] + 0x100 * DecodeLittleEndian(b[1..])
  }

  function EncodeLittleEndian(v: nat, n: nat): (r: seq<byte>)
    ensures |r| == n
  {
    if n == 0 then [] else [v % 0x100] + EncodeLittleEndian(v / 0x100, n - 1)
  }

  lemma {:induction false} LittleEndianRoundTrip(v: nat, n: nat)
    requires v < Pow256(n)
    ensures DecodeLittleEndian(EncodeLittleEndian(v, n)) == v
  {
    if n > 0 {
      LittleEndianRoundTrip(v / 0x100, n - 1);
    }
  }

  lemma Pow256Widths()
    ensures Pow256(4) == 0x1_0000_0000
    ensures Pow256(8) == 0x1_0000_0000_0000_0000
  {
    assert Pow256(2) == 0x1_0000;
    assert Pow256(4) == 0x1_0000_0000;
    assert Pow256(6) == 0x1_0000_0000_0000;
  }

  function AppendFixed32(v: uint32): (r: seq<byte>)
    ensures |r| == 4
  {
    EncodeLittleEndian(v, 4)
  }

  function AppendFixed64(v: uint64): (r: seq<byte>)
    ensures |r| == 8
  {
    EncodeLittleEndian(v, 8)
  }

  /** protowire.ConsumeFixed32: four little-endian bytes, or None when fewer remain. */
  function ConsumeFixed32(b: seq<byte>): (r: Option<(uint32, nat)>)
    ensures r.Some? <==> |b| >= 4
    ensures r.Some? ==> r.value.1 == 4
  {
    if |b| < 4 then None
    else Pow256Widths(); Some((DecodeLittleEndian(b[..4]), 4))
  }

  /** protowire.ConsumeFixed64: eight little-endian bytes, or None when fewer remain. */
  function ConsumeFixed64(b: seq<byte>): (r: Option<(uint64, nat)>)
    ensures r.Some? <==> |b| >= 8
    ensures r.Some? ==> r.value.1 == 8
  {
    if |b| < 8 then None
    else Pow256Widths(); Some((DecodeLittleEndian(b[..8]), 8))
  }

  lemma Fixed32RoundTrip(v: uint32, rest: seq<byte>)
    ensures ConsumeFixed32(AppendFixed32(v) + rest) == Some((v, 4))
  {
    Pow256Widths();
    LittleEndianRoundTrip(v, 4);
    assert (AppendFixed32(v) + rest)[..4] == AppendFixed32(v);
  }

  lemma Fixed64RoundTrip(v: uint64, rest: seq<byte>)
    ensures ConsumeFixed64(AppendFixed64(v) + rest) == Some((v, 8))
  {
    Pow256Widths();
    LittleEndianRoundTrip(v, 8);
    assert (AppendFixed64(v) + rest)[..8] == AppendFixed64(v);
  }

  // ---------------------------------------------------------------------------
  // Tags

  /** protowire.DecodeTag: field number and wire-type code; -1 when the number exceeds int32. */
  function DecodeTag(v: uint64): (int, nat) {
    (if v / 8 > MaxInt32 then -1 else v / 8, v % 8)
  }

  /** protowire.EncodeTag: uint64(num) << 3 | type, the shift dropping the top three bits. */
  function EncodeTag(num: int32, t: WireType): uint64 {
    var u := if num < 0 then num + 0x1_0000_0000_0000_0000 else num;
    (u % 0x2000_0000_0000_0000) * 8 + TypeCode(t)
  }

  /** For the field numbers the parser accepts, the tag stays within 32 bits and decodes back. */
  lemma TagRoundTrip(num: int32, t: WireType)
    requires ValidNumber(num)
    ensures EncodeTag(num, t) <= MaxUint32
    ensures DecodeTag(EncodeTag(num, t)) == (num as int, TypeCode(t))
  {
  }

  // ---------------------------------------------------------------------------
  // Ascending iteration over field numbers

  lemma {:induction false} LeastElement(s: set<int32>) returns (least: int32)
    requires s != {}
    ensures least in s && forall x | x in s :: least <= x
    decreases |s|
  {
    var y :| y in s;
    if s == {y} {
      least := y;
    } else {
      var m := LeastElement(s - {y});
      least := if y < m then y else m;
      forall x | x in s
        ensures least <= x
      {
        if x != y {
          assert x in s - {y};
        }
      }
    }
  }

  lemma MinExists(s: set<int32>)
    requires s != {}
    ensures exists m :: m in s && forall x | x in s :: m <= x
  {
    var least := LeastElement(s);
  }

  /** The smallest field number of a non-empty set. */
  function MinOf(s: set<int32>): (m: int32)
    requires s != {}
    ensures m in s && forall x | x in s :: m <= x
  {
    MinExists(s);
    var m :| m in s && forall x | x in s :: m <= x;
    m
  }
}
