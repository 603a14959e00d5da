/** Optional values, standing for Rust's `Option` and for the outcomes the
    source reaches through `unwrap`/`?`. */
module Wrappers {

  datatype Option<+T> = None | Some(value: T)

  /** The value an optional holds, as a sequence of none or one. */
  function ToSeq<T>(o: Option<T>): seq<T>
  {
    match o
    case None => []
    case Some(v) => [v]
  }
}
