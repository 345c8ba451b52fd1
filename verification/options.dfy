/** The optional value used for a storage cell (live or dead) and for the
    result of reading the most recent element. */
module Options {

  datatype Option<+T> = None | Some(value: T)

}
