/**
 * The LiDAR-Lite register map and the pure decoding the driver applies to the
 * bytes it reads back (main.cpp:28-44, 90-91, 136, 153, 174-176).
 */
module Lidar {
  import opened Bytes

  /** Bus address of the sensor, 0x62 shifted left once for the R/W bit. */
  const LidarAddr: int := 0x62 * 2

  const AcqCmdReg: Byte := 0x00
  const AcqCmd: Byte := 0x04

  const StatusReg: Byte := 0x01
  const StatusBusyMask: Byte := 0x01
  const StatusHealthMask: Byte := 0x20

  const DeltaVelocityReg: Byte := 0x09

  /** High-byte register 0x0f with its MSB set: an auto-incrementing two-byte read of 0x0f, 0x10. */
  const DistReg: Byte := 0x8f

  /** The saturation point of a reported distance, in centimetres. */
  const MaxDistance: Uint16 := 9999

  /** The status record the driver fills in: two `char` flags. */
  datatype LidarStatus = LidarStatus(busy: Byte, healthy: Byte)

  /** `buf & LIDAR_STATUS_BUSY_MASK`: bit 0 of the status byte, 1 when it is set and 0 when it is clear. */
  function BusyOf(b: Byte): (r: Byte)
    ensures r as int == b as int % 2
  {
    assert (b & 1) as int == b as int % 2;
    b & StatusBusyMask
  }

  /**
   * `(buf * LIDAR_STATUS_HEALTH_MASK) >> 5`: `buf` is promoted to a 32-bit
   * `int`, and the result is stored back into a `char`, which keeps its low
   * eight bits. Multiplying by 0x20 and shifting right by five undo each
   * other for every byte, so the "healthy" flag is the whole status byte.
   */
  function HealthyOf(b: Byte): (r: Byte)
    ensures r == b
  {
    var x := b as bv32;
    assert x < 0x100;
    assert (x * 0x20) >> 5 == x;
    ((((b as bv32) * (StatusHealthMask as bv32)) >> 5) & 0xFF) as bv8
  }

  /** The bit-5 test the health mask names; the driver does not compute this. */
  function HealthBit(b: Byte): (r: Byte)
    ensures r as int == b as int / 0x20 % 2
  {
    assert ((b & 0x20) >> 5) as int == b as int / 0x20 % 2;
    (b & StatusHealthMask) >> 5
  }

  /**
   * Unpacking of one status byte into `lidar_status_t`: busy iff bit 0 is
   * set, healthy iff the byte is nonzero.
   */
  function DecodeStatus(b: Byte): (r: LidarStatus)
    ensures r.busy != 0 <==> b as int % 2 == 1
    ensures r.healthy != 0 <==> b != 0
  {
    LidarStatus(BusyOf(b), HealthyOf(b))
  }

  /**
   * `buf[1] | (buf[0] << 8)`, computed in the 32-bit `int` and returned as a
   * `uint16_t`: the two bytes as `hi * 256 + lo`, which always fits.
   */
  function Reassemble(hi: Byte, lo: Byte): (r: Uint16)
    ensures r == hi as int * 0x100 + lo as int
  {
    ShiftOrIsSum(hi, lo);
    WideSumValue(hi, lo);
    Uint16Fits(hi as int * 0x100 + lo as int);
    (((lo as bv32) | ((hi as bv32) << 8)) as int) % 0x1_0000
  }

  /** The high byte shifted clear of the low byte: the OR is a sum. */
  lemma ShiftOrIsSum(hi: Byte, lo: Byte)
    ensures (lo as bv32) | ((hi as bv32) << 8) == (hi as bv32) * 0x100 + (lo as bv32)
  {
  }

  lemma WideSumValue(hi: Byte, lo: Byte)
    ensures ((hi as bv32) * 0x100 + (lo as bv32)) as int == hi as int * 0x100 + lo as int
    ensures 0 <= hi as int * 0x100 + lo as int < 0x1_0000
  {
  }

  /** Truncation to a `uint16_t` keeps a value that fits. */
  lemma Uint16Fits(n: int)
    requires 0 <= n < 0x1_0000
    ensures n % 0x1_0000 == n
  {
  }

  /** The saturation `main` applies: distances at or above 9999 read as 9999. */
  function Clamp(d: Uint16): (r: Uint16)
    ensures r <= MaxDistance && r <= d
    ensures r == d || r == MaxDistance
  {
    if d >= MaxDistance then MaxDistance else d
  }

  /** `(int8_t)buf` for the delta-velocity byte: its two's-complement reading. */
  function DecodeDeltaVelocity(b: Byte): (r: Int8)
    ensures var x := b as int; r == if x < 0x80 then x else x - 0x100
  {
    var x := b as int;
    assert 0 <= x < 0x100;
    Int8Of(x)
  }

  /**
   * The health decode is not a test of bit 5: a status byte with bit 5
   * clear but some other bit set reads as healthy, and only 0x00 reads as
   * unhealthy.
   */
  lemma HealthIgnoresMask()
    ensures HealthBit(0x01) == 0 && DecodeStatus(0x01).healthy != 0
    ensures HealthBit(0x40) == 0 && DecodeStatus(0x40).healthy != 0
    ensures DecodeStatus(0x00).healthy == 0
  {
  }

  /** Status byte 0x01 reports busy; 0x00 reports idle. */
  lemma StatusExamples()
    ensures DecodeStatus(0x01).busy != 0
    ensures DecodeStatus(0x00).busy == 0
  {
  }

  /** The reassembled distance splits back into the two bytes the sensor sent. */
  lemma ReassembleSplits(hi: Byte, lo: Byte)
    ensures Reassemble(hi, lo) / 0x100 == hi as int
    ensures Reassemble(hi, lo) % 0x100 == lo as int
  {
  }

  /** Bytes 0x27, 0x10 give 10000, which is reported as 9999. */
  lemma DistanceExample()
    ensures Reassemble(0x27, 0x10) == 10000
    ensures Clamp(Reassemble(0x27, 0x10)) == MaxDistance
  {
  }

  /** Clamping a clamped distance changes nothing. */
  lemma ClampIdempotent(d: Uint16)
    ensures Clamp(Clamp(d)) == Clamp(d)
  {
  }

  /** Clamping keeps the order of distances. */
  lemma ClampMonotone(d: Uint16, e: Uint16)
    requires d <= e
    ensures Clamp(d) <= Clamp(e)
  {
  }

  /** 0xFF, 0x7F and 0x80 decode to -1, 127 and -128. */
  lemma DeltaVelocityExamples()
    ensures DecodeDeltaVelocity(0xFF) == -1
    ensures DecodeDeltaVelocity(0x7F) == 127
    ensures DecodeDeltaVelocity(0x80) == -128
  {
  }
}
