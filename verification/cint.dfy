/** The range of the C++ `int` the programs compute with (32 bits on every
    platform they target). */
module CInt {
  const IntMin: int := -0x8000_0000
  const IntMax: int := 0x7FFF_FFFF
}
