/** What several components share. */
module Common {
  const TWO_16 := 0x1_0000
  const TWO_32 := 0x1_0000_0000
  const TWO_63 := 0x8000_0000_0000_0000
  const TWO_64 := 0x1_0000_0000_0000_0000

  datatype Option<+T> = None | Some(value: T)

  // the header of what the device sends, on both buses
  const RX_HWHRD_LEN := 60
  const TYPE_CFG_CMD_RSP := 0x11
  const TYPE_CFG_DATA_CFM := 0x12

  /** (type & TYPE_CFG) == TYPE_CFG, where TYPE_CFG is 0x10. */
  predicate IsCfg(kind: nat) {
    kind / 16 % 2 == 1
  }
}
