/**
 * Fixed-width integers and the operand value type as the snapshot codec
 * stores them. `ValVariant` has 128 bits of storage; the codec keeps the
 * low 64 (`save_value`/`load_value`).
 */
module Scalars {
  const U32_BOUND: nat := 0x1_0000_0000
  const U64_BOUND: nat := 0x1_0000_0000_0000_0000
  const U128_BOUND: nat := 0x1_0000_0000_0000_0000_0000_0000_0000_0000

  type u32 = x: nat | x < U32_BOUND
  type u64 = x: nat | x < U64_BOUND

  /** A `ValVariant`: any 128-bit pattern. */
  type Value = x: nat | x < U128_BOUND

  /** `V.get<uint64_t>()`: the low 64 bits of the value. */
  function SaveValue(v: Value): (t: u64)
    ensures (v - t) % U64_BOUND == 0
    ensures v < U64_BOUND ==> t == v
  {
    v % U64_BOUND
  }

  /** `Value{src}`: a 64-bit number widened to a value. */
  function LoadValue(t: u64): (v: Value)
    ensures v < U64_BOUND
    ensures SaveValue(v) == t
  {
    t
  }

  /** A value survives a save and a load exactly when it fits in 64 bits. */
  lemma ValueRoundTrip(v: Value)
    ensures LoadValue(SaveValue(v)) == v <==> v < U64_BOUND
  {
  }

  /** The conversion of a container size to `uint32_t`. */
  function Truncate32(n: nat): (r: u32)
    ensures (n - r) % U32_BOUND == 0
    ensures n < U32_BOUND ==> r == n
    ensures r <= n
  {
    n % U32_BOUND
  }

  /** The conversion of an unsigned product to `uint64_t`. */
  function Wrap64(n: nat): (r: u64)
    ensures (n - r) % U64_BOUND == 0
    ensures n < U64_BOUND ==> r == n
    ensures r <= n
  {
    n % U64_BOUND
  }
}
