/** Machine words as natural numbers.
    A 64-bit value is a nat below TWO64, and a flag is the parity of a quotient, so that every
    bit test is linear arithmetic over a constant. */
module Words {

  const TWO32: nat := 0x1_0000_0000
  const TWO64: nat := 0x1_0000_0000_0000_0000
  const MAX64: nat := 0xFFFF_FFFF_FFFF_FFFF

  datatype Option<+T> = None | Some(value: T)

  /** Whether the flag of weight `bit` (a power of two) is set in `v`. */
  predicate Has(v: nat, bit: nat)
    requires bit > 0
  {
    (v / bit) % 2 == 1
  }

  function Min(a: nat, b: nat): nat {
    if a < b then a else b
  }
}
