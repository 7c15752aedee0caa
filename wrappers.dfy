/** The optional-value and success-or-abort wrappers the model is built from. */
module Wrappers {

  datatype Option<+T> = None | Some(value: T)

  /** What a render call yields: its value, or the panic that aborts the whole
      rendering, carrying the name of the value kind that caused it. */
  datatype Result<+T> = Ok(value: T) | Panic(kind: string)
}
