/** Java's fixed-width integer conversions, written out over unbounded
    integers. */
module Numbers {
  const TwoTo32: int := 0x1_0000_0000
  const IntMin: int := -0x8000_0000
  const IntMax: int := 0x7FFF_FFFF

  /** `Number.intValue()` of an integral value: keep the low 32 bits and
      read them as two's complement. */
  function IntValue(n: int): (r: int)
    ensures IntMin <= r <= IntMax
    ensures (n - r) % TwoTo32 == 0
  {
    var low := n % TwoTo32;
    if low > IntMax then low - TwoTo32 else low
  }

  /** The conversion is the identity on values that already fit, and two
      values 2^32 apart convert to the same `int`. */
  lemma {:induction false} IntValueFacts(n: int)
    ensures IntMin <= n <= IntMax ==> IntValue(n) == n
    ensures IntValue(n + TwoTo32) == IntValue(n)
  {
    assert (n + TwoTo32) % TwoTo32 == n % TwoTo32;
  }
}
