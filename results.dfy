/** Option and Result wrappers used for the runner's optional values and error paths. */
module Results {

  datatype Option<+T> = None | Some(value: T)

  /** `Ok` is normal completion; `Err` stands for a raised exception or `sys.exit(1)`. */
  datatype Result<+T, +E> = Ok(value: T) | Err(error: E)
}
