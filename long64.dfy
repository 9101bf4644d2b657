/** Kotlin's `Long`: 64-bit two's complement, so `+=` wraps around. */
module Long64 {

  const Modulus: int := 0x1_0000_0000_0000_0000
  const HalfModulus: int := 0x8000_0000_0000_0000

  predicate InRange(x: int) { -HalfModulus <= x < HalfModulus }

  type Long = x: int | InRange(x)

  /** The long whose two's-complement bits are the low 64 bits of x:
      what `Long` addition yields and what `BigInteger.longValue()` returns. */
  function Wrap(x: int): (r: Long)
    ensures InRange(x) ==> r == x
  {
    var m := (x + HalfModulus) % Modulus;
    assert 0 <= m < Modulus;
    if InRange(x) then
      assert x + HalfModulus == m + 0 * Modulus;
      m - HalfModulus
    else
      m - HalfModulus
  }

  /** Wrap(x) differs from x by a whole number of moduli. */
  lemma WrapOffset(x: int) returns (q: int)
    ensures x == Wrap(x) + q * Modulus
  {
    q := (x + HalfModulus) / Modulus;
  }

  /** Two longs that differ by a multiple of the modulus are equal. */
  lemma {:induction false} WrapUnique(x: int, r: Long, q: int)
    requires x == r + q * Modulus
    ensures r == Wrap(x)
  {
    var q' := WrapOffset(x);
    var w := Wrap(x);
    assert InRange(w) && InRange(r);
    var d := q' - q;
    assert r - w == d * Modulus;
    assert -Modulus < r - w < Modulus;
  }

  /** Adding to a wrapped sum wraps like adding to the exact sum, so a running
      `Long` total is the exact total taken modulo 2^64. */
  lemma WrapAdd(a: int, b: int)
    ensures Wrap(Wrap(a) + b) == Wrap(a + b)
  {
    var q1 := WrapOffset(a);
    var q2 := WrapOffset(Wrap(a) + b);
    assert a + b == Wrap(Wrap(a) + b) + (q1 + q2) * Modulus;
    WrapUnique(a + b, Wrap(Wrap(a) + b), q1 + q2);
  }
}
