/**
 * The C# `int`: 32-bit two's complement.  Unchecked arithmetic (the game's default)
 * keeps the low 32 bits of the exact result, so a sum or product beyond the range
 * wraps around to the other end.
 */
module Int32 {

  const MaxInt32 := 0x7fff_ffff
  const MinInt32 := -0x8000_0000

  /** 2^32: the period of unchecked arithmetic. */
  const Modulus := 0x1_0000_0000

  predicate InInt32(x: int)
  {
    MinInt32 <= x <= MaxInt32
  }

  /** The Int32 an unchecked operation produces from its exact result x: the value in
      range that agrees with x modulo 2^32. */
  function Wrap(x: int): (r: int)
    ensures InInt32(r)
    ensures (x - r) % Modulus == 0
    ensures InInt32(x) <==> r == x
  {
    (x - MinInt32) % Modulus + MinInt32
  }
}
