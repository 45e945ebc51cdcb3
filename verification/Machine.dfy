/** Word sizes and the two address-space constants every component shares. */
module Machine {
  const U16: nat := 0x1_0000
  const U32: nat := 0x1_0000_0000
  const U64: nat := 0x1_0000_0000_0000_0000

  const PAGE_SIZE: nat := 4096
  const KERNEL_START: nat := 0xffff_8000_0000_0000

  /** The m bytes from a on and the n bytes from b on have none in common. */
  predicate RangesApart(a: nat, m: nat, b: nat, n: nat) { a + m <= b || b + n <= a }
}
