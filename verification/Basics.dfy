/** What several modules share. */
module Basics {

  datatype Option<+T> = None | Some(value: T)

  /** An account name, as the number it stands for. */
  type Name = nat

  type Bytes = seq<int>

  const TWO32 := 0x1_0000_0000
  const UINT64_MAX := 0xFFFF_FFFF_FFFF_FFFF
}
