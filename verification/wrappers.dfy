/** Option and Result types used for the error paths of the header codec. */
module Wrappers {

  datatype Option<+T> = None | Some(value: T)

  /** Every exception the header code can raise, one constructor per cause. */
  datatype Error =
    | BadSignature            // first four bytes are not "LASF"
    | Truncated               // the stream ended inside a fixed-width field
    | VersionFormat           // a version string that is not "<int>.<int>"
    | Incompatible(formatId: nat, version: string)
    | UnknownVersion          // version string missing from the header-size table
    | IncoherentHeaderSize
    | IncoherentOffset
    | IncoherentPointSize
    | PointCountOverflow      // more than 2^32-1 points under a version before 1.4
    | FieldOverflow           // an integer that does not fit its on-disk width
    | NotAscii                // an identifier string that is not ASCII
    | NotDecodable            // identifier bytes that are not ASCII on read
    | DateOverflow            // a stored day of the year that carries past 9999-12-31
    | EmptyBatch              // maximum of a zero-size point batch
    | VlrError                // the VLR list could not be read
    | SlotIndex               // a scale or offset copy past the 3 slots or past the given values

  datatype Result<+R> = Ok(value: R) | Err(error: Error) {
    predicate IsFailure() { Err? }
    function PropagateFailure<U>(): Result<U>
      requires Err?
    {
      Err(error)
    }
    function Extract(): R
      requires Ok?
    {
      value
    }
  }

  datatype Outcome = Pass | Fail(error: Error) {
    predicate IsFailure() { Fail? }
    function PropagateFailure(): Outcome
      requires Fail?
    {
      this
    }
  }
}
