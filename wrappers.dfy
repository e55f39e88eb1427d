/** The optional value used where finddupes.py leaves an attribute unset or
    a search finds nothing. */
module Wrappers {

  datatype Option<+T> = None | Some(value: T)
}
