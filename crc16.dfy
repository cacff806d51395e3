/**
 * The frame check sequence: CRC-16 with the generator polynomial
 * x^16 + x^12 + x^5 + 1 (0x1021) of ITU-T Recommendation V.41, computed most
 * significant bit first. The library configuration the program names (CCITT) is
 * taken to start from a zero register with no final XOR and no bit reflection.
 * The 16-bit register is kept as a natural number below 2^16.
 */
module Crc16 {
  import opened Wire
  import opened Bits

  const Polynomial: nat := 0x1021
  const InitialRegister: nat := 0

  /** The bitwise exclusive or of `a` and `b`. */
  function Xor(a: nat, b: nat): nat
    decreases a + b
  {
    if a == 0 && b == 0 then 0
    else (if a % 2 == b % 2 then 0 else 1) + 2 * Xor(a / 2, b / 2)
  }

  /** Exclusive or keeps values below 2^k below 2^k. */
  lemma {:induction false} XorBound(a: nat, b: nat, k: nat)
    requires a < Pow2(k) && b < Pow2(k)
    ensures Xor(a, b) < Pow2(k)
    decreases a + b
  {
    if a != 0 || b != 0 {
      assert k > 0;
      XorBound(a / 2, b / 2, k - 1);
    }
  }

  /** Exclusive or of two 16-bit register values. */
  function Xor16(a: nat, b: nat): (r: nat)
    requires a < 0x1_0000 && b < 0x1_0000
    ensures r < 0x1_0000
  {
    Pow2Table();
    XorBound(a, b, 16);
    Xor(a, b)
  }

  /**
   * One shift of the register: the top bit leaves, a zero enters at the bottom, and
   * the polynomial is fed back when the bit that left was a one.
   */
  function ShiftOnce(reg: nat): (r: nat)
    requires reg < 0x1_0000
    ensures r < 0x1_0000
  {
    if reg >= 0x8000 then Xor16((reg - 0x8000) * 2, Polynomial) else reg * 2
  }

  /** The register after `n` shifts. */
  function Shift(reg: nat, n: nat): (r: nat)
    requires reg < 0x1_0000
    ensures r < 0x1_0000
    decreases n
  {
    if n == 0 then reg else Shift(ShiftOnce(reg), n - 1)
  }

  /** The register after the eight shifts that absorb one byte. */
  function ShiftByte(reg: nat): (r: nat)
    requires reg < 0x1_0000
    ensures r < 0x1_0000
  {
    Shift(reg, 8)
  }

  /** The register after absorbing `data`, one byte at a time from the front. */
  function Register(data: seq<byte>): (r: nat)
    ensures r < 0x1_0000
  {
    if data == [] then InitialRegister
    else ShiftByte(Xor16(Register(data[..|data| - 1]), data[|data| - 1] as nat * 0x100))
  }

  /** `calculate_checksum(data)`: the 16-bit check value. */
  function Checksum(data: seq<byte>): (c: nat)
    ensures c < 0x1_0000
  {
    Register(data)
  }
}
