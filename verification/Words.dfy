// 32-bit words, and runs of addresses.
module Words {

  const TWO_TO_THE_32 := 0x1_0000_0000

  // A 32-bit word, read as an unsigned number.
  type Word = w: int | 0 <= w < TWO_TO_THE_32

  // The addresses of n bytes.
  function Range(addr: nat, n: nat): seq<nat> {
    seq(n, i => addr + i)
  }
}
