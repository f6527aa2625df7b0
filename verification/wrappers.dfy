/** The optional value used wherever the generator can hand back a null pointer. */
module Wrappers {

  /** `None` plays the part of a null `Value *` or `BasicBlock *`. */
  datatype Option<+T> = None | Some(value: T)
}
