/** `time.Duration`: nanoseconds in 64 bits. */
module Time {

  const TWO_63 := 0x8000_0000_0000_0000
  const MILLISECOND := 1_000_000
  const SECOND := 1_000 * MILLISECOND

  /** What a product keeps of itself in 64 bits. */
  function Wrap64(x: int): (r: int)
    ensures -TWO_63 <= r < TWO_63
    ensures r == x <==> -TWO_63 <= x < TWO_63
  {
    (x + TWO_63) % (2 * TWO_63) - TWO_63
  }

  /** What is dropped are whole multiples of 2^64. */
  lemma WrapIs(x: int)
    ensures -9_223_372_036_854_775_808 <= Wrap64(x) < 9_223_372_036_854_775_808
    ensures exists k :: x == Wrap64(x) + k * 18_446_744_073_709_551_616
  {
    var k := (x + TWO_63) / (2 * TWO_63);
    assert x == Wrap64(x) + k * 18_446_744_073_709_551_616;
  }

  /** Wrapping never makes a number larger, unless it was too small to begin with. */
  lemma WrapNeverStretchesIff(x: int)
    ensures Wrap64(x) <= x <==> -TWO_63 <= x
  {
    if x >= -TWO_63 {
      var y := x + TWO_63;
      assert y % (2 * TWO_63) <= y;
    }
  }
}
