/** Stock result types: `null` and `undefined` become `None`, thrown errors become `Err`. */
module Results {
  datatype Option<+T> = None | Some(value: T)
  datatype Result<+T, +E> = Ok(value: T) | Err(error: E)
}
