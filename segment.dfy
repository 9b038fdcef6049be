// x86 segment selectors (Intel SDM Vol. 3A section 3.4.2): a 16-bit value
// holding the descriptor index in bits 15..3, the table indicator in bit 2
// and the requested privilege level in bits 1..0. Selector values are
// 16-bit words, so the shifts and masks are the source's own.

module Segment {
  import opened Prelude

  datatype TableIndicator = Global | Local

  /** `table as u16`: `Global = 0`, `Local = 1`. */
  function TableBit(t: TableIndicator): (b: bv16)
    ensures b <= 1
  {
    match t
    case Global => 0
    case Local => 1
  }

  datatype PrivilegeLevel = Ring0 | Ring1 | Ring2 | Ring3

  /** `rpl as u16` (and `as_u64`): the ring number. */
  function LevelBits(l: PrivilegeLevel): (b: bv16)
    ensures b <= 3
  {
    match l
    case Ring0 => 0
    case Ring1 => 1
    case Ring2 => 2
    case Ring3 => 3
  }

  /** `PrivilegeLevel::from_u16`: 0 to 3 name the four rings; any other value panics. */
  function FromU16(x: bv16): (r: Result<PrivilegeLevel>)
    ensures r.Ok? <==> x <= 3
    ensures r.Ok? ==> LevelBits(r.value) == x
    ensures r.Err? ==> r.fault == InvalidPrivilegeLevel
  {
    match x
    case 0 => Ok(Ring0)
    case 1 => Ok(Ring1)
    case 2 => Ok(Ring2)
    case 3 => Ok(Ring3)
    case _ => Err(InvalidPrivilegeLevel)
  }

  /** Reading a ring back from its number gives the same ring, so the numbering is one to one. */
  lemma FromLevelBits(l: PrivilegeLevel)
    ensures FromU16(LevelBits(l)) == Ok(l)
  {
  }

  datatype SegmentSelector = SegmentSelector(val: bv16)

  const RPL_MASK: bv16 := 0x0003
  const TI_BIT: bv16 := 0x0004
  const SI_MASK: bv16 := 0xfff8

  /**
   * `SegmentSelector::new`: `index << 3 | table << 2 | rpl` in 16 bits, so
   * the three high bits of `index` are shifted out. The index, the table and
   * the privilege level each read back from their own field.
   */
  function NewSelector(index: bv16, table: TableIndicator, rpl: PrivilegeLevel): (s: SegmentSelector)
    ensures Index(s) == index & 0x1fff
    ensures TableIndicatorOf(s) == table
    ensures s.val & RPL_MASK == LevelBits(rpl)
  {
    SegmentSelector((index << 3) | (TableBit(table) << 2) | LevelBits(rpl))
  }

  /** `index`: the selector shifted right by three, the descriptor's position in its table. */
  function Index(s: SegmentSelector): (i: bv16)
    ensures i < 0x2000
  {
    s.val >> 3
  }

  /** `byte_index`: the selector with its low three bits cleared, eight bytes per descriptor. */
  function ByteIndex(s: SegmentSelector): (b: bv16)
    ensures b == Index(s) * 8
    ensures b <= s.val && s.val - b <= 7
  {
    s.val & SI_MASK
  }

  /** `table_indicator`: `Local` exactly when bit 2 is set. */
  function TableIndicatorOf(s: SegmentSelector): (t: TableIndicator)
    ensures t == Local <==> s.val & TI_BIT != 0
  {
    if s.val & TI_BIT != 0 then Local else Global
  }

  /**
   * Any index below 8192 survives `new` unchanged: the selector names the
   * descriptor it was built for.
   */
  lemma IndexRoundTrip(index: bv16, table: TableIndicator, rpl: PrivilegeLevel)
    requires index < 0x2000
    ensures Index(NewSelector(index, table, rpl)) == index
    ensures ByteIndex(NewSelector(index, table, rpl)) == index * 8
  {
  }

  /** `as_u16`: the raw selector value. */
  function AsU16(s: SegmentSelector): bv16
  {
    s.val
  }
}
