/** The C integer types of Kernel/util.h as ranges of mathematical integers, with their wrap-around. */
module Machine {
  type uint8 = x: int | 0 <= x < 0x100
  type uint12 = x: int | 0 <= x < 0x1000
  type uint16 = x: int | 0 <= x < 0x1_0000
  type uint32 = x: int | 0 <= x < 0x1_0000_0000
  type uint64 = x: int | 0 <= x < 0x1_0000_0000_0000_0000

  /** Bytes in a block of physical memory, and in a page. */
  const BLOCK_SIZE := 1024
  const PAGE_SIZE := 0x1000

  function Pow2(k: nat): (p: nat)
    ensures p > 0
  {
    if k == 0 then 1 else 2 * Pow2(k - 1)
  }

  lemma {:induction false} Pow2Monotonic(j: nat, k: nat)
    requires j <= k
    ensures Pow2(j) <= Pow2(k)
    decreases k - j
  {
    if j < k {
      Pow2Monotonic(j, k - 1);
    }
  }

  function Wrap8(x: int): uint8 { x % 0x100 }
  function Wrap16(x: int): uint16 { x % 0x1_0000 }
  function Wrap32(x: int): uint32 { x % 0x1_0000_0000 }
  function Wrap64(x: int): uint64 { x % 0x1_0000_0000_0000_0000 }

  lemma WrapAdd(x: int, d: int)
    ensures Wrap32(Wrap32(x) + d) == Wrap32(x + d)
  {}

  /** The remainders that the C conversions take. */
  lemma WrapIsRemainder(x: int)
    ensures Wrap8(x) == x % 256 && Wrap16(x) == x % 65536
    ensures Wrap32(x) == x % 4294967296 && Wrap64(x) == x % 18446744073709551616
  {}

  lemma WrapNone(x: uint32)
    ensures Wrap32(x) == x
  {}

  datatype Option<+T> = None | Some(value: T)
}
