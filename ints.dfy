/** Fixed-width integer types of the bridge (Rust's u8, u16, u32, u64, i16)
    as subsets of the mathematical integers, the wrap-around of the atomic
    counters, and Rust's `Option`. */
module Ints {
  const U32_MODULUS: int := 0x1_0000_0000

  type uint8 = x: int | 0 <= x < 0x100
  type uint16 = x: int | 0 <= x < 0x1_0000
  type uint32 = x: int | 0 <= x < 0x1_0000_0000
  type uint64 = x: int | 0 <= x < 0x1_0000_0000_0000_0000
  type int16 = x: int | -0x8000 <= x < 0x8000

  datatype Option<T> = None | Some(value: T)

  function Min(a: int, b: int): int
  {
    if a < b then a else b
  }

  /** Concatenation regroups; the solver finds this slowly unaided. */
  lemma AppendAssoc<T>(a: seq<T>, b: seq<T>, c: seq<T>)
    ensures a + b + c == a + (b + c)
  {
  }

  /** `AtomicU32::fetch_add(1)` stores the successor modulo 2^32: it counts
      up by one and wraps from u32::MAX to 0. */
  function WrappingIncrement(x: uint32): (r: uint32)
    ensures x < 0xFFFF_FFFF ==> r == x + 1
    ensures x == 0xFFFF_FFFF ==> r == 0
  {
    (x + 1) % U32_MODULUS
  }
}
