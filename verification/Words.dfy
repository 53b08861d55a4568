/** Byte strings, one char per byte, and integers of 64 bits. */
module Words {

  type Bytes = string

  const TWO_63 := 0x8000_0000_0000_0000
  const TWO_64 := 0x1_0000_0000_0000_0000
  const MAX_INT64 := 0x7fff_ffff_ffff_ffff

  predicate IsInt64(n: int) {
    -TWO_63 <= n < TWO_63
  }

  function Min(a: int, b: int): int {
    if a <= b then a else b
  }

  function Max(a: int, b: int): int {
    if a >= b then a else b
  }

  /** The two's-complement reading of n modulo 2^64. */
  function Wrap(n: int): int {
    (n + TWO_63) % TWO_64 - TWO_63
  }

  lemma WrapSmall(n: int)
    ensures IsInt64(Wrap(n)) && (Wrap(n) == n <==> IsInt64(n))
  {
  }

  lemma WrapOnce(n: int)
    requires -TWO_63 <= n < TWO_64
    ensures Wrap(n) == n - (if n > MAX_INT64 then TWO_64 else 0)
  {
  }

  lemma WrapAgain(a: int, b: int)
    ensures Wrap(Wrap(a) + b) == Wrap(a + b)
  {
  }

  lemma WrapMinus(a: int, b: int)
    ensures Wrap(a - Wrap(b)) == Wrap(a - b)
  {
  }
}
