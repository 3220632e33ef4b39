/** The optional-value datatype shared by the other modules. */
module Options {

  /** `None` stands for a missing value (JavaScript `null` or `undefined` where
      the program only distinguishes "there" from "not there"). */
  datatype Option<+T> = None | Some(value: T)
}
