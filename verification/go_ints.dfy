/** Go's fixed-width integer types, as ranges of mathematical integers. */
module GoInts {

  newtype Int8 = x: int | -0x80 <= x < 0x80
  newtype Int16 = x: int | -0x8000 <= x < 0x8000
  newtype Int32 = x: int | -0x8000_0000 <= x < 0x8000_0000
  newtype Int64 = x: int | -0x8000_0000_0000_0000 <= x < 0x8000_0000_0000_0000

  newtype Uint8 = x: int | 0 <= x < 0x100
  newtype Uint16 = x: int | 0 <= x < 0x1_0000
  newtype Uint32 = x: int | 0 <= x < 0x1_0000_0000
  newtype Uint64 = x: int | 0 <= x < 0x1_0000_0000_0000_0000

  const MaxInt64: int := 0x7fff_ffff_ffff_ffff
}
