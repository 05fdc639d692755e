/** The C integer types and the libusb constants the safe layer uses.  The
    constant values are those of libusb's public header; the proofs about
    hot-plug events rely only on the arrival and departure codes being
    distinct single flag bits. */
module Libusb {

  newtype u8 = x: int | 0 <= x < 0x100
  newtype u32 = x: int | 0 <= x < 0x1_0000_0000
  newtype i32 = x: int | -0x8000_0000 <= x < 0x8000_0000

  const LIBUSB_SUCCESS: i32 := 0
  const LIBUSB_HOTPLUG_MATCH_ANY: i32 := -1
  const LIBUSB_HOTPLUG_EVENT_DEVICE_ARRIVED: i32 := 0x01
  const LIBUSB_HOTPLUG_EVENT_DEVICE_LEFT: i32 := 0x02
  const LIBUSB_HOTPLUG_ENUMERATE: i32 := 0x01

  /** The two's-complement bit pattern of a C `int`. */
  function ToBits(x: i32): bv32 {
    if x < 0 then (x as int + 0x1_0000_0000) as bv32 else x as int as bv32
  }

  /** The C `int` whose two's-complement bit pattern is `b`. */
  function FromBits(b: bv32): i32 {
    var n := b as int;
    if n < 0x8000_0000 then n as i32 else (n - 0x1_0000_0000) as i32
  }

  /** C's `a | b` on `int`. */
  function BitOr(a: i32, b: i32): i32 {
    FromBits(ToBits(a) | ToBits(b))
  }

  /** Whether every bit of `flag` is set in the mask `mask`. */
  predicate HasFlag(mask: i32, flag: i32) {
    ToBits(mask) & ToBits(flag) == ToBits(flag)
  }

  /** Whether `mask` has no bit outside the flags `a` and `b`. */
  predicate WithinFlags(mask: i32, a: i32, b: i32) {
    ToBits(mask) & !(ToBits(a) | ToBits(b)) == 0
  }

  /** Rust's `n as i32` on a `usize`: keep the low 32 bits and read them as a
      two's-complement number. */
  function WrapI32(n: nat): (r: i32)
    ensures n < 0x8000_0000 ==> r as int == n
    ensures (r as int - n) % 0x1_0000_0000 == 0
  {
    var m := n % 0x1_0000_0000;
    if m < 0x8000_0000 then m as i32 else (m - 0x1_0000_0000) as i32
  }
}
