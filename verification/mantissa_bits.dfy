/** The 64-bit IEEE-754 bit patterns the tool moves mantissas in and out of.
    A double in [1, 2) has sign bit 0, biased exponent 0x3FF and a free 52-bit
    mantissa, so such a double is fully described by its mantissa. Float values
    themselves, and the `+ 1` / `- 1` that move between [0, 1) and [1, 2), are
    not modelled: every operation here works on the bit pattern. */
module MantissaBits {
  import opened XorShift128

  /** The low 52 bits of a word, `asUintN(64, (1n << 52n) - 1n)`. */
  const MantissaMask: bv64 := 0xF_FFFF_FFFF_FFFF

  /** The sign and exponent bits of 1.0: sign 0, biased exponent 0x3FF. */
  const OneBits: bv64 := 0x3FF0_0000_0000_0000

  /** `mantissaToFloat`, as the bit pattern it builds: the mantissa with the
      exponent of 1.0 or-ed in. Its low 52 bits are the mantissa's, and a
      mantissa below 2^52 yields a double in [1, 2). */
  function MantissaToBits(m: bv64): (r: bv64)
    ensures r & MantissaMask == m & MantissaMask
    ensures m < 1 << 52 ==> r >> 52 == 0x3FF
  {
    m | OneBits
  }

  /** `floatToMantissa`, on the double's bit pattern: its low 52 bits. The
      pattern splits into its top 12 bits and the result. */
  function FloatToMantissa(bits: bv64): (m: bv64)
    ensures m < 1 << 52
    ensures ((bits >> 52) << 52) | m == bits
  {
    bits & MantissaMask
  }

  /** Masking the pattern built from a mantissa below 2^52 gives the mantissa back. */
  lemma MantissaRoundTrip(m: bv64)
    requires m < 1 << 52
    ensures FloatToMantissa(MantissaToBits(m)) == m
  {
  }

  /** Re-building the pattern from its mantissa gives the pattern back exactly
      when it is the pattern of a double in [1, 2). */
  lemma PatternRoundTrip(bits: bv64)
    ensures MantissaToBits(FloatToMantissa(bits)) == bits <==> bits >> 52 == 0x3FF
  {
  }

  /** `extractNumberFromState` before its `- 1`: the pattern of the double in
      [1, 2) whose mantissa is the state's 52-bit output. */
  function NumberBits(s: State): (r: bv64)
    ensures r >> 52 == 0x3FF
    ensures FloatToMantissa(r) == ExtractMantissa(s)
  {
    MantissaRoundTrip(ExtractMantissa(s));
    MantissaToBits(ExtractMantissa(s))
  }
}
