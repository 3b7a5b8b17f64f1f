/** The user window of every root: demand pages and anonymous mappings. */
module Layout {
  const USER_VA_MIN := 0x0100_0000
  const USER_VA_MAX := 0x10_0000_0000
}
