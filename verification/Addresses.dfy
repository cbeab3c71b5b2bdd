/** Arena addresses: a block index and a byte offset inside the block. */
module Addresses {
  /** `nullAddr` is the pair of two all-ones words. */
  const MAX_UINT32: nat := 0xFFFF_FFFF

  datatype Addr = Addr(idx: nat, off: nat)

  const NULL: Addr := Addr(MAX_UINT32, MAX_UINT32)
}
