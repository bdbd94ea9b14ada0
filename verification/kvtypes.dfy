/** The values exchanged through the key/value store contract: the
    `KVPair` tuple every operation hands back, the closed set of errors
    that the atomic operations report, and the wrappers that carry them. */
module KVTypes {

  /** Values are opaque byte strings; the store never interprets them. */
  type Bytes = seq<bv8>

  /** Errors an operation of the contract can report. The backend-registry
      error belongs to the backend selection logic and is not modelled. */
  datatype Error =
    | KeyModified            // the index in `previous` is not the stored one
    | KeyNotFound            // no value is stored under the key (or prefix)
    | PreviousNotSpecified   // an atomic delete was issued without `previous`
    | KeyExists              // a create-only put found a value already there

  /** The {Key, Value, LastIndex} tuple. `lastIndex` is the version token
      the store issued when it last wrote this key. */
  datatype KVPair = KVPair(key: string, value: Bytes, lastIndex: nat)

  /** A possibly-absent value: `None` plays the part of a nil pointer. */
  datatype Option<+T> = None | Some(value: T)

  /** The `(T, error)` return shape: exactly one of a value or an error. */
  datatype Result<+T> = Ok(value: T) | Err(error: Error)
}
