/** The Python exceptions the memory-region layer can raise, and the
    wrappers the model uses in their place. */
module Exceptions {

  /** The exception classes the accessors raise.
      IndexError: indexed access out of range, or a bytearray index past its end.
      OverflowError: int.to_bytes given a value that does not fit.
      StructError: struct.pack given a value that does not fit.
      KeyError: a region kind missing from the device's region table.
      ValueError: a ctypes array type of negative length. */
  datatype Error = IndexError | OverflowError | StructError | KeyError | ValueError

  /** A call that either returns a value or raises. */
  datatype Result<T> = Ok(value: T) | Err(error: Error)

  /** Python's None-or-value. */
  datatype Option<T> = None | Some(value: T)

  function Min(a: int, b: int): int { if a <= b then a else b }

  function Max(a: int, b: int): int { if a <= b then b else a }
}
