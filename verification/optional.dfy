/** An optional value: `None` stands for the source's `null` result. */
module Optional {
  datatype Option<+T> = None | Some(value: T)
}

