/** Machine integers and small result types shared by every module. */
module Common {

  /** uint8_t, uint16_t, uint32_t and uint64_t. A value assigned to one of these carries a proof
      obligation that it fits, so every place that does not write `% TWO_32` (or the like) is proved
      free of wrap-around. */
  type byte = x: int | 0 <= x < 0x100
  type u16 = x: int | 0 <= x < 0x1_0000
  type u32 = x: int | 0 <= x < 0x1_0000_0000
  type u64 = x: int | 0 <= x < 0x1_0000_0000_0000_0000

  const TWO_32: nat := 0x1_0000_0000
  const TWO_64: nat := 0x1_0000_0000_0000_0000

  /** std::chrono::system_clock counts in steps of 100 ns on Windows. */
  const TICKS_PER_SECOND: nat := 10_000_000

  datatype Option<+T> = None | Some(value: T)

  /** The part of gcad::ErrorCode that the modelled calls return. */
  datatype ErrorCode =
    | OK
    | ErrQuarantineFull
    | ErrRollbackFail
    | ErrNotFound
    | ErrInvalidTransition
    | ErrQuarantineDenied

  function Max(a: int, b: int): int {
    if a < b then b else a
  }

  function Min(a: int, b: int): int {
    if a < b then a else b
  }

  /** n copies of x. */
  function Fill<T>(n: nat, x: T): (s: seq<T>)
    ensures |s| == n && forall i :: 0 <= i < n ==> s[i] == x
  {
    seq(n, _ => x)
  }

  lemma Regroup<T>(a: seq<T>, b: seq<T>, c: seq<T>)
    ensures a + (b + c) == a + b + c
  {}

  /** Ids or positions in strictly ascending order. */
  predicate AscendingIds(ids: seq<nat>) {
    forall i, j :: 0 <= i < j < |ids| ==> ids[i] < ids[j]
  }

  /** The place of the first element that satisfies p, or |s|. */
  function FirstWhere<T>(s: seq<T>, p: T -> bool): (i: nat)
    ensures i <= |s| && (i < |s| ==> p(s[i]))
    ensures forall k :: 0 <= k < i ==> !p(s[k])
  {
    if |s| == 0 || p(s[0]) then 0 else 1 + FirstWhere(s[1..], p)
  }

  /** The newest n elements. */
  function Newest<T>(s: seq<T>, n: nat): (r: seq<T>)
    ensures |r| == Min(|s|, n)
  {
    if |s| <= n then s else s[|s| - n..]
  }

  /** Dropping the oldest at each step or once at the end comes to the same. */
  lemma NewestSnoc<T>(s: seq<T>, n: nat, x: T)
    ensures Newest(s + [x], n) == Newest(Newest(s, n) + [x], n)
  {
    if |s| > n > 0 {
      assert (s + [x])[|s| + 1 - n..] == s[|s| - n..][1..] + [x];
    }
  }

  // ---- Little-endian fields ----

  function ReadU16(bs: seq<byte>, at: nat): u16
    requires at + 2 <= |bs|
  {
    bs[at] + 0x100 * bs[at + 1] as int
  }

  function ReadU32(bs: seq<byte>, at: nat): u32
    requires at + 4 <= |bs|
  {
    bs[at] + 0x100 * bs[at + 1] as int + 0x1_0000 * bs[at + 2] as int + 0x100_0000 * bs[at + 3] as int
  }
}
