/** What several of the modules share. */
module Basics {

  datatype Option<+T> = None | Some(value: T)

  /** A run of memory, copied as a whole. */
  type Bytes = seq<bv8>

  /** A pointer to nothing, where pointers are modelled as places in a table. */
  const NULL: int := -1
}
