/** Types and small sequence facts shared by the whole project. */
module Common {

  datatype Option<+T> = None | Some(value: T)

  const MAX_U32: nat := 0xFFFF_FFFF
  const MAX_U64: nat := 0xFFFF_FFFF_FFFF_FFFF

  /** Block heights and launcher reference counts are 32-bit in the program. */
  type u32 = x: int | 0 <= x <= 0xFFFF_FFFF
  type u64 = x: int | 0 <= x <= 0xFFFF_FFFF_FFFF_FFFF

  function SatSub(x: nat, y: nat): nat {
    if x < y then 0 else x - y
  }

  function SatAdd32(x: u32, y: u32): u32 {
    if x + y > MAX_U32 then MAX_U32 else x + y
  }

  function SatAdd64(x: nat, y: nat): nat {
    if x + y > MAX_U64 then MAX_U64 else x + y
  }

  /** The low 64 bits of a number: what a cast to an unsigned 64-bit integer keeps. */
  function AsU64(x: int): nat {
    x % 0x1_0000_0000_0000_0000
  }

  function Max(x: int, y: int): int {
    if x < y then y else x
  }

  function LastOf<T>(s: seq<T>): Option<T> {
    if s == [] then None else Some(s[|s| - 1])
  }
}
