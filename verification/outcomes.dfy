/** Option and error-or-value results used across the model. Errors carry
    the negative errno the C code returns. */
module Outcomes {

  datatype Option<+T> = None | Some(value: T)

  datatype Result<+T> = Ok(value: T) | Err(code: int)
}
