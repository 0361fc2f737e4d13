/** Fixed-width C integer types used by the buffers. */
module CTypes {

  /** uint64_t: the timestamp payload stored by both buffers. */
  newtype u64 = x: int | 0 <= x < 0x1_0000_0000_0000_0000

  /** Largest value of a C `int` (32-bit two's complement). */
  const INT_MAX: int := 0x7fff_ffff

  function Min(a: int, b: int): (m: int)
    ensures m <= a && m <= b
    ensures m == a || m == b
  {
    if a <= b then a else b
  }
}
