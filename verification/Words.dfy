/** Machine words and the option type shared by all the kernel models. */
module Words {

  /** A 32-bit unsigned value. Assigning to it is a proof that nothing wrapped. */
  type Word = w: int | 0 <= w < 0x1_0000_0000

  const TWO32 := 0x1_0000_0000
  const PAGE_SIZE := 4096

  /** KERNEL_VIRTUAL_OFFSET, KERNEL_HEAP_START and KERNEL_HEAP_SIZE of the kernel headers. */
  const KERNEL_OFFSET: Word := 0xC000_0000
  const HEAP_START: Word := 0xC040_0000
  const HEAP_SIZE: Word := 0x100_0000

  datatype Option<+T> = None | Some(value: T)
}
