/** The 32-bit word of the machine. */
module MachineWord {

  const WORD := 0x1_0000_0000

  /** A word read as a signed long. */
  function Signed(x: int): (r: int)
    ensures -WORD / 2 <= r < WORD / 2
  {
    (x + WORD / 2) % WORD - WORD / 2
  }
}
