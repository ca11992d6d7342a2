/** The optional value used for reads that come back short and for expressions whose
    C evaluation is undefined. */
module Wrappers {

  datatype Option<+T> = None | Some(value: T)
}
