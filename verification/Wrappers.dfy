/** Failure-carrying values and the machine integers the protocol uses. */
module Wrappers {
  datatype Option<+T> = None | Some(value: T)

  datatype Result<+T, +E> = Ok(value: T) | Err(error: E)
}

/** The wire's unsigned 32-bit numbers and their saturating arithmetic. */
module MachineInts {
  const U32_MAX: nat := 0xFFFF_FFFF

  type u32 = n: nat | n <= U32_MAX

  function Min(a: nat, b: nat): nat { if a <= b then a else b }

  /** `u32::try_from(n).unwrap_or(u32::MAX)`. */
  function Saturate(n: nat): u32 { if n <= U32_MAX then n else U32_MAX }

  function SaturatingAdd(a: u32, b: u32): u32 { Saturate(a + b) }

  function SaturatingSub(a: u32, b: u32): u32 { if a >= b then a - b else 0 }

  /** Saturation rounds down to the wire's numbers: `Saturate(n)` is the greatest of them not above `n`. */
  lemma SaturateIsGreatest(n: nat, m: u32)
    ensures m <= Saturate(n) <==> m <= n
  {
  }

  /** Sums are the greatest number not above the exact sum, differences the least whose sum makes up for it. */
  lemma SaturatingIsAdjoint(a: u32, b: u32, m: u32)
    ensures m <= SaturatingAdd(a, b) <==> m <= a + b
    ensures SaturatingSub(a, b) <= m <==> a <= m + b
  {
  }
}
