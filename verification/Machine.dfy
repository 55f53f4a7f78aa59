/** Sizes and 32-bit arithmetic shared by every part of the kernel model. */
module Machine {
  const TWO32: nat := 0x1_0000_0000
  const PAGE: nat := 4096

  /** An unsigned 32-bit value. */
  type Word = x: nat | x < TWO32

  /** A byte of memory. */
  type Byte = x: nat | x < 256

  /** What an unsigned 32-bit variable holds after being assigned `x`. */
  function Wrap(x: int): Word {
    x % TWO32
  }

  lemma WrapTwice(x: int, y: int)
    ensures Wrap(Wrap(x) + y) == Wrap(x + y)
  {}

  datatype Option<+T> = None | Some(value: T)
}
