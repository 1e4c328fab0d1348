/** Option and Result values: a pandas missing value (NaN/None) is `None`, and an
    exception raised by the dashboard's loader is an `Err`. */
module Wrappers {

  datatype Option<+T> = None | Some(value: T)

  datatype Result<+T, +E> = Ok(value: T) | Err(error: E)
}
