/** Option, used for Python's `None` / `False` results and for the
    open ends of an alpha-beta window. */
module Wrappers {

  datatype Option<+T> = None | Some(value: T)

}
