/** The conventional Some/None datatype, used where the program returns a
    position that may not exist or raises on an absent element. */
module Optional {

  datatype Option<+T> = None | Some(value: T)
}
