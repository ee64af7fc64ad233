/** The optional value used wherever the C code returns "nothing" (a NULL pointer, no character). */
module Options {

  datatype Option<+T> = None | Some(value: T)
}
