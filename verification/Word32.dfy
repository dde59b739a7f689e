/** The source's `unsigned int`: 32 bits, arithmetic modulo 2^32. */
module Word32 {

  const TWO_TO_THE_32: int := 0x1_0000_0000

  type u32 = x: int | 0 <= x < 0x1_0000_0000

  type u64 = x: int | 0 <= x < 0x1_0000_0000_0000_0000

  /** The value a 32-bit unsigned expression holds when its exact value is `x`. */
  function Wrap(x: int): u32
  {
    x % TWO_TO_THE_32
  }

  /** Incrementing and decrementing cancel, wrap or no wrap. */
  lemma WrapBack(n: u32)
    ensures Wrap(Wrap(n + 1) - 1) == n
  {
  }

  /** Cutting a wrapped value to 16 bits is cutting the exact value. */
  lemma WrapThenCut(x: int)
    ensures Wrap(x) % 0x1_0000 == x % 0x1_0000
  {
    assert x == 0x1_0000 * (0x1_0000 * (x / TWO_TO_THE_32)) + Wrap(x);
  }
}
