/** The wrapper the model uses in place of null references and of
    operations that throw. */
module Wrappers {

  /** A value that may be absent; `None` stands for a null reference or a
      thrown exception. */
  datatype Option<+T> = None | Some(value: T)
}
