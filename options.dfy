/** The optional value used for every operation of the library that can fail.
    The library's errors carry only a message, so a failure is just `None`. */
module Options {

  datatype Option<+T> = None | Some(value: T)
}
