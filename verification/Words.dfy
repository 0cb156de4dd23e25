/** Machine integers: the widths the kernel is built for (LP64) and their wrap-around. */
module Words {

  const U8: int := 0x100
  const U16: int := 0x1_0000
  const U32: int := 0x1_0000_0000
  const U64: int := 0x1_0000_0000_0000_0000

  type uint32 = x: int | 0 <= x < U32
  type uint64 = x: int | 0 <= x < U64

  /** The low bits of `bits` read as a two's complement integer with `modulus` values. */
  function Signed(bits: nat, modulus: int): (v: int)
    requires modulus in {U8, U16, U32, U64}
    ensures -modulus <= 2 * v < modulus
    ensures (v - bits) % modulus == 0
  {
    var low := bits % modulus;
    assert bits == modulus * (bits / modulus) + low;
    MultipleMod(-(bits / modulus), modulus);
    MultipleMod(-(bits / modulus) - 1, modulus);
    if 2 * low < modulus then low else low - modulus
  }

  lemma MultipleMod(k: int, m: int)
    requires m > 0
    ensures (k * m) % m == 0
  {
    var q, r := (k * m) / m, (k * m) % m;
    assert k * m == q * m + r;
    assert (k - q) * m == r;
    assert k - q >= 1 ==> (k - q) * m >= m;
    assert k - q <= -1 ==> (k - q) * m <= -m;
  }
}
