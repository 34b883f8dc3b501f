/** Error kinds, result wrappers and std::size_t arithmetic shared by both
    string classes. */
module Common {

  /** The two exception kinds the strings throw: std::out_of_range for a bad
      position or an oversized constructor source, std::length_error when an
      edit would take the size past the capacity. */
  datatype Error = OutOfRange | LengthError

  /** The value of an operation that either returns or throws. */
  datatype Result<T> = Ok(value: T) | Err(error: Error)

  /** The value of a mutator that returns `*this` or throws. */
  datatype Outcome = Done | Fail(error: Error)

  datatype Option<T> = None | Some(value: T)

  /** std::size_t wraps modulo 2^64. */
  const SIZE_MODULUS: nat := 0x1_0000_0000_0000_0000

  /** npos == static_cast<size_type>(-1). */
  const NPOS: nat := SIZE_MODULUS - 1

  function Min(a: nat, b: nat): nat
  {
    if a <= b then a else b
  }

  /** The value a signed 8-bit `char` holds when given the byte v: two's
      complement, so bytes from 128 on read back negative. */
  function SignedChar(v: nat): (c: int)
    requires v < 256
    ensures -128 <= c < 128
    ensures v < 128 ==> c == v
    ensures 128 <= v ==> c == v - 256
  {
    if v < 128 then v else v - 256
  }

  /** Unsigned subtraction `a - b` on std::size_t operands. */
  function SizeSub(a: nat, b: nat): (r: nat)
    requires a < SIZE_MODULUS && b < SIZE_MODULUS
    ensures r < SIZE_MODULUS
    ensures b <= a ==> r == a - b
    ensures a < b ==> r == SIZE_MODULUS + a - b
  {
    (a - b) % SIZE_MODULUS
  }
}
