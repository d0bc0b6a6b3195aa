// An optional value, and the size of a batch.
module Options {
  datatype Option<+T> = None | Some(value: T)

  // The most rows a batch can hold.
  const STANDARD_BATCH_ROWS: nat := 2048
}
