/** Fixed-width words and the wire types shared by the other modules. */
module Words {

  const TWO16: nat := 0x1_0000
  const TWO32: nat := 0x1_0000_0000
  const TWO64: nat := 0x1_0000_0000_0000_0000

  type uint8 = n: nat | n < 0x100
  type uint16 = n: nat | n < TWO16
  type uint32 = n: nat | n < TWO32
  type uint64 = n: nat | n < TWO64

  datatype Option<+T> = None | Some(value: T)

  function Min(a: nat, b: nat): nat {
    if a < b then a else b
  }

  /** The difference of two 32-bit tick readings, as C computes it. */
  function Ticks(now: uint32, past: uint32): uint32 {
    (now - past) % TWO32
  }

  /** The clock may wrap around in between. */
  lemma TicksAreElapsed(past: uint32, elapsed: uint32)
    ensures Ticks((past + elapsed) % TWO32, past) == elapsed
  {
  }
}
