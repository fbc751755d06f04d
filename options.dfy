/** The optional value used wherever the C# source returns `null` for "no result". */
module Options {
  datatype Option<+T> = None | Some(value: T)
}
