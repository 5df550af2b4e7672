/** Widths of the machine's numbers, and its pages. */
module Machine {
  const U32: nat := 0x1_0000_0000
  const U64: nat := 0x1_0000_0000_0000_0000
  const PAGE_SIZE: nat := 4096

  /** The start of the page an address lies in. */
  function PageOf(va: nat): (page: nat) { va / PAGE_SIZE * PAGE_SIZE }
}
