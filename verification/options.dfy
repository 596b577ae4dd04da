/** A value that may be absent: stands for Java's nullable references. */
module Options {

  datatype Option<+T> = None | Some(value: T)
}
