/** Result shapes shared by the modules: the source's error returns become values. */
module Common {

  datatype Option<+T> = None | Some(value: T)

  datatype Error =
    | InvalidArgument
    | NotFound
    | Conflict
    | NoProviderAvailable
    | AdapterFailed
    | ObjectLocked
    | Superseded
    | TooLarge

  datatype Result<+T> = Ok(value: T) | Err(error: Error)

  /** An object key is unique within its bucket. */
  datatype Key = Key(bucket: string, name: string)

  function Max(a: int, b: int): int {
    if a < b then b else a
  }

  function Min(a: int, b: int): int {
    if a < b then a else b
  }
}
