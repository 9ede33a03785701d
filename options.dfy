/** An optional value: `None` stands for a missing or unparsable input. */
module Options {
  datatype Option<+T> = None | Some(value: T)
}
