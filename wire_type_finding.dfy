/**
  parseMessage as written on wire-type codes 6 and 7. protowire.DecodeTag hands
  back the low three bits of a tag as the wire type, so any buffer can carry
  these codes; the parse loop's switch has no case for them and reaches
  panic("unreachable") instead of returning its parsing error. The rest of the
  model uses the corrected loop body (Codec.ConsumePayload), which returns
  ParsingError for them.
 */
module WireTypeFinding {
  import opened Wrappers
  import opened Wire
  import opened Codec
  import opened CodecProofs

  /** What a Go call does: return normally with a result, or panic. */
  datatype Outcome<T> = Returned(result: Result<T>) | Panicked

  /** One iteration of parseMessage's loop as written. */
  function ConsumeFieldAsWritten(b: seq<byte>): (r: Outcome<(Record, nat)>)
    ensures r.Returned? ==> r.result == ConsumeField(b)
  {
    match ConsumeVarint(b)
    case None => Returned(Failure(ParsingError))
    case Some((v, n)) => AfterTagAsWritten(b, v, n)
  }

  /** The loop body as written once the tag is read: codes 6 and 7 fall through the switch to the panic. */
  function AfterTagAsWritten(b: seq<byte>, v: uint64, n: nat): (r: Outcome<(Record, nat)>)
    requires n <= |b|
    ensures r.Returned? ==> r.result == FieldAfterTag(b, v, n)
    ensures r.Panicked? <==> DecodeTag(v).0 > 0 && v <= MaxUint32 && DecodeTag(v).1 in {6, 7}
  {
    var (num, code) := DecodeTag(v);
    if num <= 0 || v > MaxUint32 then Returned(Failure(ParsingError))
    else if code == 6 || code == 7 then Panicked
    else Returned(Numbered(num, n, ConsumePayload(code, b[n..])))
  }

  /** parseMessage's record loop as written; where it returns, it agrees with the corrected parser. */
  function ParseRecordsAsWritten(b: seq<byte>): (r: Outcome<seq<Record>>)
    ensures r.Returned? ==> r.result == ParseRecords(b)
    decreases |b|
  {
    if |b| == 0 then Returned(Success([]))
    else
      match ConsumeFieldAsWritten(b)
      case Panicked => Panicked
      case Returned(Failure(e)) => Returned(Failure(e))
      case Returned(Success((rec, n))) =>
        match ParseRecordsAsWritten(b[n..])
        case Panicked => Panicked
        case Returned(rest) => Returned(Prepend([rec], rest))
  }

  /** Any accepted tag with code 6 or 7 panics the loop as written, where the corrected parser fails cleanly. */
  lemma UnknownWireTypePanics(num: int32, code: nat, rest: seq<byte>)
    requires ValidNumber(num) && (code == 6 || code == 7)
    ensures ParseRecordsAsWritten(EncodeVarint(num * 8 + code) + rest) == Panicked
    ensures Parse(EncodeVarint(num * 8 + code) + rest) == Failure(ParsingError)
  {
    TagPrefix(num, code, rest);
    PayloadFails(num, code, rest, ParsingError);
  }

  /** The one-byte buffer 0x0E (field 1, wire type 6) panics parseMessage as written. */
  lemma PanicOnByte0E()
    ensures ParseRecordsAsWritten([0x0E]) == Panicked
    ensures Parse([0x0E]) == Failure(ParsingError)
  {
    assert EncodeVarint(1 * 8 + 6) + [] == [0x0E];
    UnknownWireTypePanics(1, 6, []);
  }
}
