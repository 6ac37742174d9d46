/** The C types the driver computes with, and a few stock datatypes. */
module Machine {
  datatype Option<+T> = None | Some(value: T)

  newtype byte = b: int | 0 <= b < 256
  newtype uint8 = n: int | 0 <= n < 256

  const NEWLINE: byte := 10

  const EINVAL: int := 22
  const EFAULT: int := 14
  const ENOMEM: int := 12

  /** One more than the largest `size_t`. */
  const SIZE_MOD: nat := 0x1_0000_0000_0000_0000

  /** The largest request `kmalloc` can ever grant. The kernel's own limit is far lower. */
  const MAX_KMALLOC: nat := 0xFFFF_FFFF

  function AddSize(a: nat, b: nat): nat { (a + b) % SIZE_MOD }

  function SubSize(a: nat, b: nat): nat { (a - b) % SIZE_MOD }

  /** Conversion of a `loff_t` to `size_t`. */
  function ToSize(p: int): nat { p % SIZE_MOD }

  /** Conversion of a `size_t` to `loff_t`. */
  function ToOffset(n: nat): int { if n < SIZE_MOD / 2 then n else n - SIZE_MOD }

  function Min(a: nat, b: nat): nat { if a < b then a else b }

  lemma SubSizeDiffers(a: nat)
    ensures SubSize(a, 0) != SubSize(a, 1)
  {
  }
}
