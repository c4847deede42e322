/** The optional-value datatype shared by the recogniser and the store. */
module Options {

  /** `None` where the Go code gets "no match" / `sql.ErrNoRows`. */
  datatype Option<+T> = None | Some(value: T)
}
