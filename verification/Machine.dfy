/** Machine integers shared by the kernel modules. Arithmetic on them is done in `int`; wherever
    the kernel relies on (or suffers from) 32-bit wrap-around it is written out with `Wrap`. */
module Machine {
  const TWO_32 := 0x1_0000_0000

  type byte = b: int | 0 <= b < 0x100
  type uint32 = w: int | 0 <= w < TWO_32

  /** Truncation of a result to 32 bits. */
  function Wrap(n: int): (w: uint32)
  {
    n % TWO_32
  }

  datatype Option<+T> = None | Some(value: T)
}
