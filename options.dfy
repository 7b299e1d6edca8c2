/** An optional value: `None` stands for JavaScript's `null`. */
module Options {
  datatype Option<T> = None | Some(value: T)
}
