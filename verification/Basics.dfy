/** Names shared by all modules. */
module Basics {
  datatype Option<+T> = None | Some(value: T)

  /** The number of 32-bit words. */
  const WORD_RANGE: nat := 0x1_0000_0000

  type u8 = x: int | 0 <= x < 0x100
  type u16 = x: int | 0 <= x < 0x1_0000
  type u32 = x: int | 0 <= x < 0x1_0000_0000

  /** "No event": the largest 64-bit cycle number. */
  const NEVER: nat := 0xFFFF_FFFF_FFFF_FFFF

  function Bit(b: bool): nat { if b then 1 else 0 }
  function Min(a: int, b: int): int { if a <= b then a else b }
  function Max(a: int, b: int): int { if a >= b then a else b }

  lemma ConcatAssociates<T>(a: seq<T>, b: seq<T>, c: seq<T>)
    ensures a + (b + c) == (a + b) + c
  {
  }
}
