/**
 * Machine words of the 64-bit targets the pool is built for.
 *
 * `size_t` is modelled as an integer below 2^64 rather than as `bv64`, so that
 * sizes can take part in offset arithmetic; wrap-around is written out.
 */
module Words {

  /** 2^64: one more than the largest `size_t`. */
  const WORD_MODULUS: int := 0x1_0000_0000_0000_0000

  /** A `size_t` value. */
  type Word = w: int | 0 <= w < WORD_MODULUS

  /** Unsigned `a + b` on `size_t`: wraps modulo 2^64. */
  function WrappingAdd(a: Word, b: Word): (r: Word)
    ensures r == (a + b) % WORD_MODULUS
  {
    if a + b < WORD_MODULUS then a + b else a + b - WORD_MODULUS
  }

  /** Unsigned `a - b` on `size_t`: wraps modulo 2^64 when `b > a`. */
  function WrappingSub(a: Word, b: Word): (r: Word)
    ensures r == (a - b) % WORD_MODULUS
  {
    if b <= a then a - b else a - b + WORD_MODULUS
  }
}
