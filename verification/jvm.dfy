/** The JVM value types the app relies on: fixed-width integers and `java.net.URL`. */
module Jvm {

  const TwoTo31: int := 0x8000_0000
  const TwoTo32: int := 0x1_0000_0000

  /** Kotlin `Byte`. */
  type Int8 = x: int | -0x80 <= x < 0x80

  /** Kotlin `Int`. */
  type Int32 = x: int | -0x8000_0000 <= x < 0x8000_0000

  /** Kotlin `Long`. */
  type Int64 = x: int | -0x8000_0000_0000_0000 <= x < 0x8000_0000_0000_0000

  /** Two's-complement wrap-around of Kotlin `Int` arithmetic: the unique `Int`
      congruent to `x` modulo 2^32. */
  function Wrap32(x: int): (r: Int32)
    ensures (r - x) % TwoTo32 == 0
  {
    (x + TwoTo31) % TwoTo32 - TwoTo31
  }

  /** Adding a non-zero amount smaller than 2^32 always changes a wrapped value. */
  lemma Wrap32Shifts(x: int, d: int)
    requires 0 < d < TwoTo32
    ensures Wrap32(x) != Wrap32(x + d)
  {
    var r1, r2 := Wrap32(x), Wrap32(x + d);
    var k1 := (r1 - x) / TwoTo32;
    var k2 := (r2 - x - d) / TwoTo32;
    assert r1 - x == 0x1_0000_0000 * k1;
    assert r2 - x - d == 0x1_0000_0000 * k2;
    assert r2 - r1 == d + 0x1_0000_0000 * (k2 - k1);
  }

  /** A `java.net.URL` value; parsing a spec into one is left to the caller. */
  datatype Url = Url(spec: string)
}
