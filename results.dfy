/** The ways a decode can stop, and the wrappers that carry a value or one of them. */
module Results {

  /** The exceptions the decoder can raise on its way, one constructor each; an allocation
      failure of a read is not among them. */
  datatype Error =
    | ShortRead(pos: int)                    // IndexError: `[0]` of a read that found no whole element
    | BadSeek(pos: int)                      // a seek to a negative position or past the signed 64-bit range
    | CountOverflow(count: int)              // OverflowError: an element count outside the signed 64-bit range
    | ArrayTooBig(count: int)                // ValueError: a read whose byte size passes the signed 64-bit range
    | NegativeDimension(pos: int)            // ValueError: a read of all remaining elements from a whole element past the end of file
    | UnsupportedVersion(word: nat)          // the version assertion: the float32 word is not >= 3
    | MalformedFooter                        // the XML parser rejected the footer text
    | MissingKey(key: string)                // KeyError while indexing the parsed footer
    | NotAMapping(key: string)               // TypeError: indexing a text, an empty element or a list
    | NotFrameBlock(found: string)           // the assertion that the DataBlock type is 'Frame'
    | NotRegionBlock(found: string)          // the assertion that the nested DataBlock type is 'Region'
    | UnsupportedPixelFormat(name: string)   // KeyError in the pixel-format table
    | NotAnInteger(text: string)             // ValueError from int()
    | NotAFloat(text: string)                // ValueError from float()
    | ReshapeMismatch(size: nat, height: int, width: int)  // ValueError from reshape
    | DimensionTooLarge(dim: int)            // ValueError: a reshape dimension outside the signed 64-bit range
    | RaggedFrames                           // the final array conversion on frames of unequal shape
    | NoAttribute(name: string)              // AttributeError: an attribute not set yet, or a method of None
    | StreamClosed                           // ValueError: a read from the stream after it was closed

  datatype Option<+T> = None | Some(value: T)

  /** A value, or the error that stopped its computation; usable with `:-`. */
  datatype Result<+T> = Ok(value: T) | Err(error: Error) {
    predicate IsFailure() { Err? }
    function PropagateFailure<U>(): Result<U> requires Err? { Err(error) }
    function Extract(): T requires Ok? { value }
  }

  /** Success without a value, or the error; usable with `:-` inside a Result computation. */
  datatype Outcome = Pass | Fail(error: Error) {
    predicate IsFailure() { Fail? }
    function PropagateFailure<U>(): Result<U> requires Fail? { Err(error) }
  }

  /** Forgets the value of a Result. */
  function OutcomeOf<T>(r: Result<T>): Outcome
  {
    match r
    case Ok(_) => Pass
    case Err(e) => Fail(e)
  }
}
