/** Result types and byte strings shared by every module of the model. */
module Prelude {

  datatype Option<+T> = None | Some(value: T)

  datatype Result<+T, +E> = Ok(value: T) | Err(error: E)

  type byte = x: nat | x < 256

  type Bytes = seq<byte>

  /** Clock readings. `Instant` never goes backwards, and only differences are ever used. */
  type Time = nat

  /** Every element of `s` is smaller than the ones after it. */
  ghost predicate Ascending(s: seq<nat>) {
    forall i, j :: 0 <= i < j < |s| ==> s[i] < s[j]
  }
}
