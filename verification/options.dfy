/** The "value or nothing" wrapper used wherever the source returns `null`
    or reads a possibly missing field. */
module Optional {

  datatype Option<+T> = None | Some(value: T)

}
