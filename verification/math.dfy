/** math/math.go: Max and Min over Go's integer types.

    Go's `int` is modelled as an unbounded integer (the functions only
    compare); each fixed-width variant works on the matching GoInts type,
    so its result provably stays in that type's range. */
module GoMath {

  import opened GoInts

  /** MaxInt: the larger argument. */
  function MaxInt(a: int, b: int): (r: int)
    ensures r >= a && r >= b
    ensures r == a || r == b
  {
    if a > b then a else b
  }

  /** MinInt: the smaller argument. */
  function MinInt(a: int, b: int): (r: int)
    ensures r <= a && r <= b
    ensures r == a || r == b
  {
    if a > b then b else a
  }

  /** MaxInt64: the larger argument. */
  function MaxInt64(a: Int64, b: Int64): (r: Int64)
    ensures r >= a && r >= b
    ensures r == a || r == b
  {
    if a > b then a else b
  }

  /** MinInt64: the smaller argument. */
  function MinInt64(a: Int64, b: Int64): (r: Int64)
    ensures r <= a && r <= b
    ensures r == a || r == b
  {
    if a > b then b else a
  }

  /** MaxInt32: the larger argument. */
  function MaxInt32(a: Int32, b: Int32): (r: Int32)
    ensures r >= a && r >= b
    ensures r == a || r == b
  {
    if a > b then a else b
  }

  /** MinInt32: the smaller argument. */
  function MinInt32(a: Int32, b: Int32): (r: Int32)
    ensures r <= a && r <= b
    ensures r == a || r == b
  {
    if a < b then a else b
  }

  /** MaxInt16: the larger argument. */
  function MaxInt16(a: Int16, b: Int16): (r: Int16)
    ensures r >= a && r >= b
    ensures r == a || r == b
  {
    if a > b then a else b
  }

  /** MinInt16: the smaller argument. */
  function MinInt16(a: Int16, b: Int16): (r: Int16)
    ensures r <= a && r <= b
    ensures r == a || r == b
  {
    if a < b then a else b
  }

  /** MaxInt8: the larger argument. */
  function MaxInt8(a: Int8, b: Int8): (r: Int8)
    ensures r >= a && r >= b
    ensures r == a || r == b
  {
    if a > b then a else b
  }

  /** MinInt8: the smaller argument. */
  function MinInt8(a: Int8, b: Int8): (r: Int8)
    ensures r <= a && r <= b
    ensures r == a || r == b
  {
    if a < b then a else b
  }

  /** MaxUint64: the larger argument. */
  function MaxUint64(a: Uint64, b: Uint64): (r: Uint64)
    ensures r >= a && r >= b
    ensures r == a || r == b
  {
    if a > b then a else b
  }

  /** MinUint64: the smaller argument. */
  function MinUint64(a: Uint64, b: Uint64): (r: Uint64)
    ensures r <= a && r <= b
    ensures r == a || r == b
  {
    if a < b then a else b
  }

  /** MaxUint32: the larger argument. */
  function MaxUint32(a: Uint32, b: Uint32): (r: Uint32)
    ensures r >= a && r >= b
    ensures r == a || r == b
  {
    if a > b then a else b
  }

  /** MinUint32: the smaller argument. */
  function MinUint32(a: Uint32, b: Uint32): (r: Uint32)
    ensures r <= a && r <= b
    ensures r == a || r == b
  {
    if a < b then a else b
  }

  /** MaxUint16: the larger argument. */
  function MaxUint16(a: Uint16, b: Uint16): (r: Uint16)
    ensures r >= a && r >= b
    ensures r == a || r == b
  {
    if a > b then a else b
  }

  /** MinUint16: the smaller argument. */
  function MinUint16(a: Uint16, b: Uint16): (r: Uint16)
    ensures r <= a && r <= b
    ensures r == a || r == b
  {
    if a < b then a else b
  }

  /** MaxUint8: the larger argument. */
  function MaxUint8(a: Uint8, b: Uint8): (r: Uint8)
    ensures r >= a && r >= b
    ensures r == a || r == b
  {
    if a > b then a else b
  }

  /** MinUint8: the smaller argument. */
  function MinUint8(a: Uint8, b: Uint8): (r: Uint8)
    ensures r <= a && r <= b
    ensures r == a || r == b
  {
    if a < b then a else b
  }

  /** Min never exceeds Max, the pair covers both arguments, and equal
      arguments come back unchanged. */
  lemma MinMaxPair(a: int, b: int)
    ensures MinInt(a, b) <= MaxInt(a, b)
    ensures MinInt(a, b) + MaxInt(a, b) == a + b
    ensures a == b ==> MinInt(a, b) == a && MaxInt(a, b) == a
  {
  }
}
