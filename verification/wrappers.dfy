/** The optional-value type used for JavaScript's `null` / `undefined` and for
    operations that may fail (a thrown exception that the caller catches). */
module Wrappers {

  datatype Option<+T> = None | Some(value: T)
}
