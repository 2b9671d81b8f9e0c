// The result types every component uses: an optional value, and a value or the
// error the source returns instead.
module Outcomes {
  datatype Option<+T> = None | Some(value: T)

  datatype Result<+T, +E> = Ok(value: T) | Err(error: E)
}
