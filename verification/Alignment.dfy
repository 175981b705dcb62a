/** The kernel's ALIGN macro on 32-bit words, which rounds up only when the unit is a power of two. */
module Alignment {
  import opened Common
  import opened Bits
  import opened BitFacts

  /** x / n rounded up. */
  function Ceiling(x: nat, n: nat): nat
    requires n > 0
  {
    Over(x + n - 1, n)
  }

  /** ALIGN(x, a): add a - 1, then clear the bits of a - 1. */
  function Align(x: nat, a: nat): Word
    requires a > 0 && x + a <= TWO_32
  {
    And(x + a - 1, Not(a - 1))
  }

  /** For a power of two, ALIGN gives the next multiple. */
  lemma AlignRounds(x: nat, k: nat)
    requires k < 32 && x + Pow2(k) <= TWO_32
    ensures Align(x, Pow2(k)) == Ceiling(x, Pow2(k)) * Pow2(k)
  {
    hide Bitwise, Pow2, Raised, Lowered;
    Sizes();
    PowSum(k, 32 - k);
    Cleared(x + Pow2(k) - 1, k);
  }

  lemma Cleared(y: nat, k: nat)
    requires k < 32 && y < Pow2(k) * Pow2(32 - k)
    ensures Bitwise(32, Both, y, Pow2(k) * Pow2(32 - k) - Pow2(k)) == y / Pow2(k) * Pow2(k)
  {
    hide Bitwise, Raised, Lowered, Pow2;
    Distribute(Pow2(k), Pow2(32 - k));
    RaisedIs(k, Pow2(32 - k) - 1);
    MaskHigh(32, k, y, Pow2(32 - k) - 1);
    LoweredIs(k, y);
    BelowProduct(y, Pow2(k), Pow2(32 - k));
    AllOnes(32 - k, Lowered(k, y));
    RaisedIs(k, Lowered(k, y));
  }

  /** For any unit, ALIGN goes up, by less than a unit. */
  lemma AlignBounds(x: nat, a: nat)
    requires a > 0 && x + a <= TWO_32
    ensures x <= Align(x, a) <= x + a - 1
  {
    Sizes();
    MaskAndRest(32, x + a - 1, a - 1);
    MaskAtMost(32, x + a - 1, a - 1);
    hide Bitwise;
  }

  lemma AlignFour(x: nat)
    requires x + 4 <= TWO_32
    ensures Align(x, 4) == (x + 3) / 4 * 4
  {
    assert Pow2(2) == 4;
    AlignRounds(x, 2);
  }

  /** For 12288 it does not: of the sum, in units of 4096, one bit is cleared, and it may count. */
  lemma AlignBy12288(x: nat)
    requires x + 12288 <= TWO_32
    ensures var h := (x + 12287) / 4096; Align(x, 12288) == 4096 * (h - 2 * (h / 2 % 2))
  {
    Sizes();
    assert Pow2(12) == 4096 by {
      assert Pow2(4) == 16 && Pow2(8) == 256;
    }
    var y := x + 12287;
    var h := y / 4096;
    RaisedIs(12, 0xFFFFD);
    LoweredIs(12, y);
    SecondBitCleared(h);
    RaisedIs(12, h - 2 * (h / 2 % 2));
    hide Bitwise, Raised, Lowered;
    MaskHigh(32, 12, y, 0xFFFFD);
  }

  lemma SecondBitCleared(h: nat)
    requires h < 0x10_0000
    ensures Bitwise(20, Both, h, 0xFFFFD) == h - 2 * (h / 2 % 2)
  {
    assert Pow2(18) == 0x4_0000 by {
      assert Pow2(4) == 16 && Pow2(8) == 256 && Pow2(12) == 4096 && Pow2(16) == 0x1_0000;
    }
    AllOnes(18, h / 4);
    assert h / 2 / 2 == h / 4;
    assert Bitwise(19, Both, h / 2, 0x7FFFE) == 2 * Bitwise(18, Both, h / 4, 0x3FFFF);
    assert Bitwise(20, Both, h, 0xFFFFD) == 2 * Bitwise(19, Both, h / 2, 0x7FFFE) + h % 2;
  }
}
