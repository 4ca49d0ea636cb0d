/** Optional values and the Python exceptions the codec can raise, as values. */
module Outcomes {

  /** Python's `None` versus a present value. */
  datatype Option<+T> = None | Some(value: T)

  /** The exception classes the modelled functions raise. */
  datatype Error =
    | IndexError      // `heap[0]` on an empty heap, `s[-1]` on an empty string
    | KeyError        // a character missing from the code table
    | AttributeError  // `.left`, `.right` or `.char` read on `None`
    | ValueError      // a malformed `count:bit` token

  /** The outcome of a call that either returns a value or raises. */
  datatype Result<+T> = Ok(value: T) | Err(error: Error)
}
