/** The decoder's "absent" result: Java's `null` made explicit. */
module Optional {

  datatype Option<+T> = None | Some(value: T)
}
