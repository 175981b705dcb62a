/** The kind of what the device sends, in the third byte of its header, told by masks. */
module Headers {
  import opened Common
  import opened Bits
  import opened BitFacts

  const TYPE_CFG := 0x10

  lemma {:induction false} MaskOne(n: nat, x: nat)
    requires n > 0
    ensures Bitwise(n, Both, x, 1) == x % 2
  {
    MaskNone(n - 1, x / 2);
  }

  lemma MaskOfKind(kind: Byte)
    ensures And(kind, TYPE_CFG) == kind / 16 % 2 * 16
  {
    assert Raised(4, 1) == 0x10;
    MaskHigh(32, 4, kind, 1);
    LoweredIs(4, kind);
    assert Pow2(4) == 16;
    MaskOne(28, kind / 16);
    hide Bitwise;
    var b := Bitwise(28, Both, kind / 16, 1);
    assert Raised(4, b) == 16 * b;
  }

  /** Messages are told from data by (type & 0x10) == 0x10, and from each other by type & 0x7f. */
  lemma KindsByMasks(kind: Byte)
    ensures IsCfg(kind) <==> And(kind, TYPE_CFG) == TYPE_CFG
    ensures kind % 128 == And(kind, 0x7f)
    ensures IsCfg(TYPE_CFG_CMD_RSP) && IsCfg(TYPE_CFG_DATA_CFM)
  {
    MaskOfKind(kind);
    Low7(kind);
    hide And;
  }

  lemma Low7(kind: Byte)
    ensures kind % 128 == And(kind, 0x7f)
  {
    assert Pow2(7) == 128 by { assert Pow2(3) == 8; }
    MaskLow(32, 7, kind);
    LoweredIs(7, kind);
    RaisedIs(7, kind / 128);
    hide Bitwise, Raised, Lowered, Pow2;
  }
}
