/** An optional value: `None` stands for a missing or falsy JavaScript value. */
module Options {

  datatype Option<+T> = None | Some(value: T)
}
