/** Optional values, machine integers and distinctness, used throughout. */
module Basics {

  datatype Option<+T> = None | Some(value: T)

  function Min(a: nat, b: nat): nat { if a < b then a else b }

  ghost predicate Distinct<T>(xs: seq<T>) {
    forall i, j | 0 <= i < j < |xs| :: xs[i] != xs[j]
  }

  lemma InitAndLast<T>(xs: seq<T>)
    requires xs != []
    ensures xs == xs[..|xs| - 1] + [xs[|xs| - 1]]
  {
  }

  const UINT32_LIMIT := 0x1_0000_0000

  type UInt32 = n: int | 0 <= n < UINT32_LIMIT

  function Increment32(n: UInt32): UInt32 {
    if n + 1 == UINT32_LIMIT then 0 else n + 1
  }

  function Decrement32(n: UInt32): UInt32 {
    if n == 0 then UINT32_LIMIT - 1 else n - 1
  }

  type UInt64 = n: int | 0 <= n < 0x1_0000_0000_0000_0000

  type Int64 = n: int | -0x8000_0000_0000_0000 <= n < 0x8000_0000_0000_0000

  const MAX_OFFSET := 0x7FFF_FFFF_FFFF_FFFF

  /** The conversion of a uint64_t to a signed 64-bit offset. */
  function ToOffset(n: UInt64): Int64 {
    if n <= MAX_OFFSET then n else n - 0x1_0000_0000_0000_0000
  }
}
