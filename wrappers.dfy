/** Small value wrappers shared by the other modules: Python's optional values,
    attributes that may be missing, and the exceptions the modelled code raises. */
module Wrappers {

  /** A Python value that may be `None`. */
  datatype Option<+T> = None | Some(value: T)

  /** An attribute looked up with `hasattr`: either missing or present with a value
      (the value itself may be `None`, as in `Attr<Option<string>>`). */
  datatype Attr<+T> = Absent | Present(value: T)

  /** The Python exceptions the modelled code can raise. */
  datatype Exception =
    | ValueError      // _get_full_name finds no name at all
    | AttributeError  // an attribute is read without a hasattr guard
    | TypeError       // `"..." in None`

  /** The outcome of a call that either returns a value or raises. */
  datatype Result<+T> = Ok(value: T) | Raise(error: Exception)
}
