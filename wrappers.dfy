/** The optional value used wherever the source yields `undefined`, a falsy
    module or "no match". */
module Wrappers {
  datatype Option<+T> = None | Some(value: T)
}
