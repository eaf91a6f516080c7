/** The Some/None datatype used where the firmware has a null pointer or an
    absent serial character. */
module Options {

  datatype Option<+T> = None | Some(value: T)
}
