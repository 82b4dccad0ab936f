/** Values shared by the models of the separate promise types. */
module Common {

  datatype Option<+T> = None | Some(value: T)

  /** The two actions a promise can ask for: repair, or only report. */
  datatype PromiseAction = Fix | Warn
}
