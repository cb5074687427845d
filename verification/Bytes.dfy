/** Octets, 16-bit big-endian words and the little arithmetic the wire formats share. */
module Bytes {

  type byte = x: int | 0 <= x < 256

  const WORD_LIMIT := 65536

  /** The uint16_t fields of the wire formats. */
  type word = x: int | 0 <= x < WORD_LIMIT

  function Min(a: int, b: int): int {
    if a <= b then a else b
  }

  function Word(hi: byte, lo: byte): (w: nat)
    ensures w < WORD_LIMIT
  {
    256 * hi + lo
  }

  function Hi(w: nat): byte
    requires w < WORD_LIMIT
  {
    w / 256
  }

  function Lo(w: nat): byte
    requires w < WORD_LIMIT
  {
    w % 256
  }

  lemma WordOfHalves(w: nat)
    requires w < WORD_LIMIT
    ensures Word(Hi(w), Lo(w)) == w
  {
  }
}
