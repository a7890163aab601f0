// Helper types shared by every module of the model.
module Common {

  datatype Option<T> = None | Some(value: T)

  /** What a kernel routine does when it is called: it returns a value, it stops
      the machine through PANIC or a failed ASSERT, or it reaches behaviour the C
      language leaves undefined (an out-of-bounds access, a wild pointer). */
  datatype Outcome<T> = Returns(value: T) | Panics(reason: string) | Undefined(reason: string)

  const TWO32: int := 0x1_0000_0000

  /** The unsigned 32-bit value of x (what a cast to uint32 or to a pointer keeps). */
  function U32(x: int): (r: int)
    ensures 0 <= r < TWO32
    ensures x - r == TWO32 * (x / TWO32)
  {
    x % TWO32
  }

  /** The signed 32-bit (two's complement) value of x. */
  function S32(x: int): (r: int)
    ensures -0x8000_0000 <= r < 0x8000_0000
    ensures (r - x) % TWO32 == 0
  {
    var u := x % TWO32;
    if u >= 0x8000_0000 then u - TWO32 else u
  }

  predicate IsInt32(x: int) { -0x8000_0000 <= x < 0x8000_0000 }
}
