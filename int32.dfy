/** C#'s 32-bit `int` arithmetic in the unchecked context the search runs in:
    addition wraps around, `/` truncates toward zero, `~` is bitwise
    complement. */
module Int32 {

  const Min: int := -0x8000_0000
  const Max: int := 0x7fff_ffff
  const Modulus: int := 0x1_0000_0000

  predicate InRange(x: int) {
    Min <= x <= Max
  }

  /** The 32-bit two's-complement value of a mathematical integer:
      the one value in range that is congruent to `x`. */
  function Wrap(x: int): (r: int)
    ensures InRange(r)
    ensures (x - r) % Modulus == 0
    ensures InRange(x) ==> r == x
  {
    var m := x % Modulus;
    if m > Max then m - Modulus else m
  }

  /** `x / 2` as C# computes it: the remainder has the sign of the dividend. */
  function TruncDiv2(x: int): (r: int)
    ensures -1 <= x - 2 * r <= 1
    ensures x >= 0 ==> x - 2 * r >= 0
    ensures x <= 0 ==> x - 2 * r <= 0
  {
    if x >= 0 then x / 2 else -((-x) / 2)
  }

  /** `~x`, bitwise complement, which on two's-complement integers is `-x - 1`.
      It swaps the non-negative and the negative numbers and never overflows. */
  function Complement(x: int): (r: int)
    ensures x >= 0 <==> r < 0
    ensures InRange(x) ==> InRange(r)
  {
    -x - 1
  }

  /** Complement undoes itself, so a negative result decodes to the
      position it encodes. */
  lemma ComplementInvolution(x: int)
    ensures Complement(Complement(x)) == x
  {
  }
}
