/** Bytes, and 32-bit numbers in them, low byte first. */
module Bytes {

  type Byte = b: int | 0 <= b < 256

  const WORD: int := 0x1_0000_0000

  function Le4(x: int): (b: seq<Byte>)
    ensures |b| == 4
  {
    [x % 256, x / 256 % 256, x / 65536 % 256, x / 16777216 % 256]
  }

  function Word(b: seq<Byte>): (x: int)
    requires |b| == 4
    ensures 0 <= x < WORD
  {
    (b[0] as int) + 256 * (b[1] as int) + 65536 * (b[2] as int) + 16777216 * (b[3] as int)
  }

  lemma WordOfLe4(x: int)
    requires 0 <= x < WORD
    ensures Word(Le4(x)) == x
  {
    assert x / 65536 == x / 256 / 256 && x / 16777216 == x / 256 / 256 / 256;
  }
}
