/** The sizes shared by the parts that keep a 64-bit register in two 32-bit halves. */
module Halves {

  const TWO32 := 0x1_0000_0000
  const TWO64 := 0x1_0000_0000_0000_0000

  type Half = v: nat | v < TWO32
}
