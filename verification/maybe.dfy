/** The optional value used wherever the source has `T | null`, `T | undefined` or `T?`. */
module Maybe {

  datatype Option<+T> = None | Some(value: T)
}
