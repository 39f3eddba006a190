/** Machine words: 32-bit and 64-bit cuts of unbounded integers, in two's complement. */
module Words {
  const TWO31 := 0x8000_0000
  const TWO32 := 0x1_0000_0000
  const TWO63 := 0x8000_0000_0000_0000
  const TWO64 := 0x1_0000_0000_0000_0000

  // A C `int`.
  type CInt = x: int | -TWO31 <= x < TWO31

  // The value a register has when its word is read as unsigned.
  function Unsigned(x: int): nat { x % TWO32 }

  // Narrowing to a C `int`.
  function CutInt(x: int): CInt {
    if x % TWO32 < TWO31 then x % TWO32 else x % TWO32 - TWO32
  }

  // An unsigned 64-bit word read as a signed one.
  function Signed(u: nat): int {
    if u % TWO64 < TWO63 then u % TWO64 else u % TWO64 - TWO64
  }

  lemma CutOfSigned(u: nat)
    ensures CutInt(Signed(u)) == CutInt(u)
  {
    var m := u % TWO64;
    WordOfSum(m, TWO32 * (u / TWO64));
    assert u == m + TWO32 * (TWO32 * (u / TWO64));
    WordOfSum(m, -TWO32);
  }

  // Multiples of 2^32 do not show in a word.
  lemma WordOfSum(m: int, k: int)
    ensures (m + TWO32 * k) % TWO32 == m % TWO32
  {
  }
}
