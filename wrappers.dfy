/** Failure-compatible result types shared by the encoder and the decoder. */
module Wrappers {

  datatype Option<+T> = None | Some(value: T)

  /** The fault the decoder would raise as a TypeError: reading `.symbol`
      of the `null` child of a leaf (unzip.js:34-39). The compressor's own
      failure on an empty input is `Option.None`, not a `Fault`. */
  datatype Fault = NullNode

  datatype Result<+T> = Ok(value: T) | Err(fault: Fault)
}
