/** Option and Result, the failure-carrying datatypes shared by the model. */
module Wrappers {

  /** A value that may be missing; `None` plays the role of `std::string_view::npos`
      and of an empty `std::optional`. */
  datatype Option<+T> = None | Some(value: T)

  /** A value or the error that replaced it (the source throws where `Err` is returned). */
  datatype Result<+T, +E> = Ok(value: T) | Err(error: E)
}
