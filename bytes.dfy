/**
 * Machine integer types of the driver's target (an ARM mbed board, where a
 * plain `char` is unsigned) and the conversion C performs when a wider value
 * is stored into an `int8_t`.
 */
module Bytes {

  /** An unsigned `char` / `uint8_t`; the driver's masks and shifts act on its bits. */
  type Byte = bv8

  /** An `int8_t`. */
  type Int8 = x: int | -0x80 <= x < 0x80

  /** A `uint16_t`. */
  type Uint16 = x: int | 0 <= x < 0x1_0000

  /**
   * The value an `int8_t` receives when `x` is stored into it: the unique
   * value in [-128, 127] congruent to `x` modulo 256 (the two's-complement
   * wrap GCC performs for the cast `(int8_t)buf` and for `lidar_velocity +=`).
   */
  function Int8Of(x: int): (r: Int8)
    ensures (x - r) % 0x100 == 0
    ensures -0x80 <= x < 0x80 ==> r == x
  {
    (x + 0x80) % 0x100 - 0x80
  }

  /** Storing into an `int8_t` forgets everything but the value modulo 256. */
  lemma Int8OfCongruent(x: int, y: int)
    requires (x - y) % 0x100 == 0
    ensures Int8Of(x) == Int8Of(y)
  {
  }

  /**
   * Wrapping an intermediate result and wrapping again after adding `y`
   * gives the same `int8_t` as wrapping once at the end.
   */
  lemma Int8OfAbsorbs(x: int, y: int)
    ensures Int8Of(Int8Of(x) + y) == Int8Of(x + y)
  {
    Int8OfCongruent(Int8Of(x) + y, x + y);
  }
}
