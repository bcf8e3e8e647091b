/** What several of the models use. */
module Basics {

  datatype Option<T> = None | Some(value: T)

  const TWO_32: nat := 0x1_0000_0000

  type uint32 = x: nat | x < TWO_32
}
