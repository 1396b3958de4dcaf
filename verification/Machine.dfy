/** The C integer types the kernel is compiled with: int and long are 32 bits wide.
    A value of these types that an operation would take out of range is a verification error, so every
    expression written in int32 is proved free of signed overflow. */
module Machine {
  newtype int32 = x: int | -0x8000_0000 <= x < 0x8000_0000

  const TWO32: int := 0x1_0000_0000

  /** The value of a 32-bit word read as an unsigned int. */
  function Unsigned(x: int): (u: int)
    ensures 0 <= u < TWO32
    ensures 0 <= x < TWO32 ==> u == x
  {
    x % TWO32
  }

  /** The value of a 32-bit word read as a two's-complement int. */
  function Signed(x: int): (i: int)
    ensures -0x8000_0000 <= i < 0x8000_0000
    ensures Unsigned(i) == Unsigned(x)
  {
    var u := Unsigned(x);
    if u < 0x8000_0000 then u else u - TWO32
  }
}
