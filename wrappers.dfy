/** The small result types used throughout the model. */
module Wrappers {

  /** Python's `Optional[...]`. */
  datatype Option<+T> = None | Some(value: T)

  /**
   * The outcome of a step that Python may abort: a value; the `TypeError`
   * raised when `re.sub` meets an integer column label; or the `pd.concat`
   * of frames whose widths differ, which builds a column union the model
   * does not represent.
   */
  datatype Outcome<+T> = Done(value: T) | TypeError | ColumnUnion
}
