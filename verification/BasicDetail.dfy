/** Constants and one-expression helpers of the binary message format. */
module BasicDetail {

  /** One element of a std::string that carries wire data, as an unsigned value. */
  type byte = b: int | 0 <= b < 256

  const MESSAGE_END: byte := 0xff
  const ESCAPE: byte := 0xfe
  const VERSION: byte := 0
  const HEADER_MIN_LEN: nat := 3
  const FLAG_ID_FIELD: byte := 0x01
  const FLAG_RID_FIELD: byte := 0x02

  /** Encodes or decodes one escaped byte by flipping bit 6. */
  function ProcessOne(sym: byte): byte {
    if sym / 0x40 % 2 == 0 then sym + 0x40 else sym - 0x40
  }

  /** `flag` is a single bit. */
  predicate GetFlag(flagSet: byte, flag: byte)
    requires flag > 0
  {
    flagSet / flag % 2 == 1
  }

  function SetFlag(flagSet: byte, flag: byte, value: bool): int
    requires flag > 0
  {
    if GetFlag(flagSet, flag) == value then flagSet
    else if value then flagSet + flag
    else flagSet - flag
  }

  predicate IsIdExists(flags: byte) {
    GetFlag(flags, FLAG_ID_FIELD)
  }

  predicate IsRidExists(flags: byte) {
    GetFlag(flags, FLAG_RID_FIELD)
  }

  /** The flags byte as bin_message::serialize builds it: both setters applied to zero. */
  function HeaderFlags(hasId: bool, hasRid: bool): (flags: byte)
    ensures IsIdExists(flags) == hasId && IsRidExists(flags) == hasRid
    ensures flags < 4
  {
    SetFlag(SetFlag(0, FLAG_ID_FIELD, hasId), FLAG_RID_FIELD, hasRid)
  }

  // The arithmetic above is the bit arithmetic of the source: `x` is the same char as bits.

  lemma ProcessOneIsXor(sym: byte, x: bv8)
    requires sym == x as int
    ensures ProcessOne(sym) == (x ^ 0x40) as int
  {
  }

  lemma IdFlagIsBitZero(sym: byte, x: bv8)
    requires sym == x as int
    ensures IsIdExists(sym) <==> x & 0x01 != 0
    ensures SetFlag(sym, FLAG_ID_FIELD, true) == (x | 0x01) as int
    ensures SetFlag(sym, FLAG_ID_FIELD, false) == (x & 0xfe) as int
  {
  }

  lemma RidFlagIsBitOne(sym: byte, x: bv8)
    requires sym == x as int
    ensures IsRidExists(sym) <==> x & 0x02 != 0
    ensures SetFlag(sym, FLAG_RID_FIELD, true) == (x | 0x02) as int
    ensures SetFlag(sym, FLAG_RID_FIELD, false) == (x & 0xfd) as int
  {
  }
}
