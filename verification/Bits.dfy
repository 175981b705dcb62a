/** Bytes and 32-bit words as numbers, and the bit operations on them. */
module Bits {
  import opened Common

  type Byte = x: int | 0 <= x < 256
  type Word = x: int | 0 <= x < TWO_32

  function Pow2(n: nat): (p: nat)
    ensures p > 0
  {
    if n == 0 then 1 else 2 * Pow2(n - 1)
  }

  /** The lowest n bits of two numbers, joined bit by bit by `f`. */
  function Bitwise(n: nat, f: (bool, bool) -> bool, x: nat, y: nat): (r: nat)
    ensures r < Pow2(n)
  {
    if n == 0 then 0
    else 2 * Bitwise(n - 1, f, x / 2, y / 2) + if f(x % 2 == 1, y % 2 == 1) then 1 else 0
  }

  predicate Both(p: bool, q: bool) { p && q }
  predicate Either(p: bool, q: bool) { p || q }
  predicate Differ(p: bool, q: bool) { p != q }

  lemma Sizes()
    ensures Pow2(8) == 0x100 && Pow2(32) == TWO_32
  {
    assert Pow2(8) == 0x100 && Pow2(16) == 0x1_0000 && Pow2(24) == 0x100_0000;
  }

  function And(x: Word, y: Word): Word { Sizes(); Bitwise(32, Both, x, y) }
  function Or(x: Word, y: Word): Word { Sizes(); Bitwise(32, Either, x, y) }
  function Xor(x: Word, y: Word): Word { Sizes(); Bitwise(32, Differ, x, y) }
  function XorByte(x: Byte, y: Byte): Byte { Sizes(); Bitwise(8, Differ, x, y) }
  function Not(x: Word): Word { TWO_32 - 1 - x }

  function ShiftRight(x: Word, n: nat): (r: Word)
    ensures r <= x
  {
    if n == 0 then x else ShiftRight(x / 2, n - 1)
  }

  /** x rotated left by n bits. */
  function Rotate(x: Word, n: nat): Word
    requires 0 < n < 32
  {
    Or(x * Pow2(n) % TWO_32, ShiftRight(x, 32 - n))
  }
}
