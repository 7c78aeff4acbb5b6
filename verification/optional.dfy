/** A value that may be absent: a NULL pointer, a field the source never
    initialises, an uninitialised member. */
module Optional {

  datatype Option<T> = None | Some(value: T)
}
