/** Swift's optional values (`String?`), as a Dafny datatype. */
module Wrappers {

  datatype Option<+T> = None | Some(value: T)

}
