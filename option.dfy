/// A value that may be absent: a null `const char*`, a switch case with no
/// directive.
module Optional {

  datatype Option<+T> = None | Some(value: T)

}
