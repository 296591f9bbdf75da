/** Option and Result values, and the error kinds the delta engine reports. */
module Wrappers {

  datatype Option<+T> = None | Some(value: T)

  /** The errors returned by the engine; each names the condition the source reports. */
  datatype Error =
    | ParsingError              // truncated or out-of-range wire data
    | GroupsUnsupported         // wire types 3 and 4
    | InvalidEmbeddedType       // an embedded-message field is not length-delimited
    | IndexRemapUnsupported     // a field delta whose old and new index differ
    | MissingFieldDelta         // a delta index past the base occurrences, with a gap before it
    | NewAndUnchanged           // an UNCHANGED field delta with no base occurrence
    | NothingToKeep             // NEW_IS_SET_ELSEWHERE with no base occurrence
    | UnknownFieldFlag          // a new-side flag pattern outside the known ones
    | FieldsOnNonMessage        // nested field deltas applied to a non-bytes occurrence
    | InvalidField              // a field delta that sets nothing

  datatype Result<+T> = Success(value: T) | Failure(error: Error)

  /** A successful list result with `prefix` in front of it; failures pass through. */
  function Prepend<T>(prefix: seq<T>, r: Result<seq<T>>): Result<seq<T>> {
    match r
    case Success(s) => Success(prefix + s)
    case Failure(e) => Failure(e)
  }
}
