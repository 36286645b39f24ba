// Widths of the C++ integer types the modelled code computes with.
module UInt {
  const UINT_MAX: nat := 0xFFFF_FFFF
  const INT_MAX: nat := 0x7FFF_FFFF

  // An `unsigned int` that has not wrapped around.
  type uint32 = n: nat | n <= UINT_MAX

  function Min(a: int, b: int): int {
    if a <= b then a else b
  }
}
