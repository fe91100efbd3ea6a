/** The two sum types that stand for the kernel's `Option` and `Result`. */
module Wrappers {

  datatype Option<+T> = None | Some(value: T)

  /** `Result<T, i32>`: a value or an errno. */
  datatype Result<+T> = Ok(value: T) | Err(errno: int)
}
