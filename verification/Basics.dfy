/** What several components share. */
module Basics {
  datatype Option<+T> = None | Some(value: T)

  type Byte = x: int | 0 <= x < 256

  const INT_MAX: nat := 0x7fff_ffff
  const PAGE_SIZE: nat := 4096
}
