/** The fixed parameters of the kCTF scheme, built once from the bit length
    1279 and shared read-only by every solve and verify. */
module Params {
  import opened Bytes

  const ModulusBits: nat := 1279

  datatype KctfParams = KctfParams(modulus: nat, exponent: nat)

  /** The parameters for a bit length `bits`: with N = 2^bits, the modulus is
      N - 1 and the exponent N / 4. Since 4 divides N, the modulus is odd and
      modulus + 1 == 4 * exponent, i.e. exponent == (modulus + 1) / 4. */
  function ParamsFromBits(bits: nat): (params: KctfParams)
    requires bits >= 2
    ensures params.modulus + 1 == Pow2(bits)
    ensures 4 * params.exponent == Pow2(bits)
    ensures params.modulus + 1 == 4 * params.exponent
    ensures params.modulus % 2 == 1
  {
    var bigNum := Pow2(bits);
    var quarter := Pow2(bits - 2);
    Pow2Add(2, bits - 2);
    assert Pow2(2) == 4;
    assert bigNum == 4 * quarter;
    assert bigNum / 4 == quarter;
    assert bigNum - 1 == 2 * (2 * quarter - 1) + 1;
    KctfParams(bigNum - 1, bigNum / 4)
  }

  /** `KctfParams::new`: the parameters for 1279 bits. */
  function NewParams(): (params: KctfParams)
    ensures params.modulus + 1 == Pow2(ModulusBits)
    ensures params.modulus + 1 == 4 * params.exponent
    ensures params.modulus % 2 == 1
  {
    ParamsFromBits(ModulusBits)
  }

  /** The process-wide parameters (the lazily built static of the source). */
  const Kctf: KctfParams := NewParams()

  const Modulus: nat := Kctf.modulus

  const Exponent: nat := Kctf.exponent

  /** Every value of `width` bits is below 2^bits - 1 once bits > width. */
  lemma BelowMersenne(n: nat, width: nat, bits: nat)
    requires n < Pow2(width) && width < bits
    ensures n < Pow2(bits) - 1
  {
    Pow2Monotone(width, bits - 1);
    assert Pow2(bits) == 2 * Pow2(bits - 1);
  }

  /** Every 16-byte start value is below the modulus. */
  lemma SixteenBytesBelowModulus(b: seq<Byte>)
    requires |b| == 16
    ensures FromDigits(b) < Modulus
  {
    BelowMersenne(FromDigits(b), 8 * |b|, ModulusBits);
  }
}
