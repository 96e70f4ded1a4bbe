/** Definitions that several components share. */
module Common {

  /** One more than the largest machine word of 32 and of 64 bits. */
  const U32: nat := 0x1_0000_0000
  const U64: nat := 0x1_0000_0000_0000_0000

  datatype Option<T> = None | Some(value: T)

  function Max(a: int, b: int): int { if a < b then b else a }
}
