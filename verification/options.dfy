/** The nullable value of a column or a lookup that may find nothing. */
module Options {

  /** `None` stands for SQL NULL / Python `None`. */
  datatype Option<+T> = None | Some(value: T)
}
