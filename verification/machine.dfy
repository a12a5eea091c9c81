/** The two constants that all layers share. */
module Machine {
  const PAGE_SIZE := 0x1000
  const ADDRESS_SPACE := 0x1_0000_0000
}
