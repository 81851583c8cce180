/** 64-bit machine words, kept as mathematical integers with explicit wrap-around. */
module Words {
  const WORD_MODULUS := 0x1_0000_0000_0000_0000

  const WORD_MAX := WORD_MODULUS - 1

  const BYTE_MODULUS := 0x100

  type Word = w: int | 0 <= w < WORD_MODULUS

  /** Conversion to `uint_fast8_t`. */
  function ToByte(x: nat): (b: nat)
    ensures b < BYTE_MODULUS
  {
    x % BYTE_MODULUS
  }

  /** Conversion to `uint_fast64_t`. */
  function ToWord(x: nat): Word {
    x % WORD_MODULUS
  }
}
