/** An optional value: `None` where the system produces nothing (or nothing defined). */
module Options {
  datatype Option<T> = None | Some(value: T)
}
