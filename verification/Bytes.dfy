/** Bytes, the machine word, and readable memory. */
module Bytes {
  type byte = x: int | 0 <= x < 256

  /** One more than the largest size_t, and than the largest address. */
  const WORD := 0x1_0000_0000_0000_0000

  /** The byte at address `i` of readable memory. Memory past the end of `mem` is outside
      every C object; the model reads 0 there so that reads are total. */
  function Peek(mem: seq<byte>, i: nat): (b: byte) {
    if i < |mem| then mem[i] else 0
  }
}
