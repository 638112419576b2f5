/** The optional-value datatype shared by the rewriter's modules. */
module Wrappers {

  /** Either nothing or one value: a lookup that may fail, a write that may not happen. */
  datatype Option<+T> = None | Some(value: T)
}
