// x86-64 four-level paging types: page sizes, table levels, entry encoding,
// the 512-entry table, and the split of a virtual address into table indices
// (AMD64 Architecture Programmer's Manual Vol. 2 section 5.3).
//
// Entries and addresses are unsigned 64-bit words held as integers; a mask
// `v & M` with M a contiguous run of bits is written `v % 2^hi / 2^lo * 2^lo`.

module Paging {
  import opened Prelude

  /** Number of entries in a page table at every level. */
  const NUM_ENTRIES: nat := 512

  datatype PageSize = Size4KiB | Size2MiB | Size1GiB

  /** `PageSize::as_usize`, also `u64::from(PageSize)`. */
  function Bytes(s: PageSize): (n: nat)
    ensures n > 0 && n % 0x1000 == 0
  {
    match s
    case Size4KiB => 0x1000
    case Size2MiB => 0x20_0000
    case Size1GiB => 0x4000_0000
  }

  datatype PageTableLevel = PML4 | PDP | PD | PT

  function NextLevel(l: PageTableLevel): (r: Option<PageTableLevel>)
    ensures r.None? <==> l.PT?
  {
    match l
    case PML4 => Some(PDP)
    case PDP => Some(PD)
    case PD => Some(PT)
    case PT => None
  }

  /** `PageTableKind::TERMINAL_SIZE`: the size mapped by a terminal entry at this level. */
  function TerminalSize(l: PageTableLevel): (r: Option<PageSize>)
    ensures r.None? <==> l.PML4?
  {
    match l
    case PML4 => None
    case PDP => Some(Size1GiB)
    case PD => Some(Size2MiB)
    case PT => Some(Size4KiB)
  }

  /** Going down one level divides the reach of a terminal entry by the 512 entries of a table. */
  lemma TerminalSizeNests(l: PageTableLevel)
    requires NextLevel(l).Some? && TerminalSize(l).Some?
    ensures TerminalSize(NextLevel(l).value).Some?
    ensures Bytes(TerminalSize(l).value) == NUM_ENTRIES * Bytes(TerminalSize(NextLevel(l).value).value)
  {
  }

  /** The levels form one chain of four tables ending at PT. */
  lemma LevelChain()
    ensures NextLevel(PML4) == Some(PDP) && NextLevel(PDP) == Some(PD)
    ensures NextLevel(PD) == Some(PT) && NextLevel(PT) == None
    ensures TerminalSize(PT) == Some(Size4KiB)
  {
  }

  // PTFlag bits.
  const P: u64 := 0x1
  const RW: u64 := 0x2
  const US: u64 := 0x4
  const PWT: u64 := 0x8
  const PCD: u64 := 0x10
  const A: u64 := 0x20
  const D: u64 := 0x40
  const PS: u64 := 0x80
  const G: u64 := 0x100
  const NX: u64 := 0x8000_0000_0000_0000

  /** A PTFlag set: only the named bits 0-8 and 63 can be present. */
  type PTFlag = f: u64 | f % NX < 0x200

  /** `ADDRESS_MASK` = 0x0fff_ffff_ffff_f000: bits 12 to 59. */
  function AddressBits(v: u64): (r: u64)
    ensures r % 0x1000 == 0 && r < 0x1000_0000_0000_0000
    ensures v % 0x1000 == 0 && v < 0x1000_0000_0000_0000 ==> r == v
  {
    v % 0x1000_0000_0000_0000 / 0x1000 * 0x1000
  }

  /** The bits a PTFlag can name: 0 to 8 and 63. */
  function DefinedBits(v: u64): u64
  {
    v % 0x200 + v / NX * NX
  }

  datatype PageTableEntry = PageTableEntry(val: u64)

  function FromU64(x: u64): (e: PageTableEntry)
    ensures Address(e) == AddressBits(x)
    ensures Invalid(e) <==> x == 0
  {
    PageTableEntry(x)
  }

  /** `address & ADDRESS_MASK | flags`; the two parts share no bit, so the or is a sum. */
  function New(address: u64, flags: PTFlag): (e: PageTableEntry)
    ensures Address(e) == AddressBits(address)
    ensures DefinedBits(e.val) == flags
  {
    var a := AddressBits(address);
    NewParts(a, flags);
    PageTableEntry(a + flags)
  }

  lemma NewParts(a: int, f: PTFlag)
    requires 0 <= a < 0x1000_0000_0000_0000 && a % 0x1000 == 0
    ensures 0 <= a + f < U64_LIMIT
    ensures AddressBits(a + f) == a && DefinedBits(a + f) == f
  {
    var lo := f % NX;
    var hi := f / NX;
    assert f == hi * NX + lo;
    NewAddressPart(a / 0x1000, lo, hi);
    NewFlagPart(a / 0x1000, lo, hi);
  }

  lemma NewAddressPart(q: int, lo: int, hi: int)
    requires 0 <= q < 0x1_0000_0000_0000 && 0 <= lo < 0x200 && 0 <= hi <= 1
    ensures (hi * NX + q * 0x1000 + lo) % 0x1000_0000_0000_0000 / 0x1000 * 0x1000 == q * 0x1000
  {
    DivModUnique(hi * NX + q * 0x1000 + lo, hi * 8, q * 0x1000 + lo, 0x1000_0000_0000_0000);
    DivModUnique(q * 0x1000 + lo, q, lo, 0x1000);
  }

  lemma NewFlagPart(q: int, lo: int, hi: int)
    requires 0 <= q < 0x1_0000_0000_0000 && 0 <= lo < 0x200 && 0 <= hi <= 1
    ensures var x := hi * NX + q * 0x1000 + lo; x % 0x200 + x / NX * NX == hi * NX + lo
  {
    var x := hi * NX + q * 0x1000 + lo;
    DivModUnique(x, hi * 0x40_0000_0000_0000 + q * 8, lo, 0x200);
    DivModUnique(x, hi, q * 0x1000 + lo, NX);
  }

  /** `flags()`: the whole entry reinterpreted as flags, unknown bits retained. */
  function Flags(e: PageTableEntry): (f: u64)
    ensures f == e.val
    ensures DefinedBits(f) == DefinedBits(e.val)
  {
    e.val
  }

  predicate Present(e: PageTableEntry) { e.val % 2 == 1 }

  predicate PageSizeBit(e: PageTableEntry) { Flags(e) / 0x80 % 2 == 1 }

  /** Does this entry map a page rather than point to a table? */
  predicate Terminal(l: PageTableLevel, e: PageTableEntry)
  {
    match l
    case PML4 => false
    case PDP => PageSizeBit(e)
    case PD => PageSizeBit(e)
    case PT => true
  }

  predicate Invalid(e: PageTableEntry) { e.val == 0 }

  function Address(e: PageTableEntry): u64 { AddressBits(e.val) }

  /** Terminal entries exist only below PML4 and are always so at PT. */
  lemma TerminalByLevel(e: PageTableEntry)
    ensures !Terminal(PML4, e) && Terminal(PT, e)
    ensures Terminal(PDP, e) <==> PageSizeBit(e)
    ensures Terminal(PD, e) <==> Terminal(PDP, e)
  {
  }

  /** `address` keeps exactly the masked bits whatever the flags, and so a 4 KiB aligned address below 2^60. */
  lemma NewAddressIgnoresFlags(a: u64, f: PTFlag, g: PTFlag)
    ensures Address(New(a, f)) == Address(New(a, g))
    ensures a % 0x1000 == 0 && a < 0x1000_0000_0000_0000 ==> Address(New(a, f)) == a
    ensures Address(FromU64(a)) == Address(New(a, f))
  {
  }

  lemma BitsOfSmallSum(a: int, f: int)
    requires 0 <= a && a % 0x1000 == 0 && 0 <= f < 0x200
    ensures (a + f) % 2 == f % 2
    ensures (a + f) / 0x80 % 2 == f / 0x80 % 2
  {
    var q := a / 0x1000;
    assert a == q * 0x1000;
    DivModUnique(a + f, q * 0x800 + f / 2, f % 2, 2);
    DivModUnique(a + f, q * 0x20 + f / 0x80, f % 0x80, 0x80);
    DivModUnique(q * 0x20 + f / 0x80, q * 0x10 + f / 0x80 / 2, f / 0x80 % 2, 2);
  }

  /** A terminal entry `paddr | P | RW | PS`: present, terminal at PDP and PD, mapping `paddr`'s masked bits. */
  lemma LeafEntry(paddr: u64)
    ensures Present(New(paddr, P + RW + PS)) && PageSizeBit(New(paddr, P + RW + PS))
    ensures Address(New(paddr, P + RW + PS)) == AddressBits(paddr)
  {
    BitsOfSmallSum(AddressBits(paddr), P + RW + PS);
  }

  /** A table pointer `table | P | RW`: present and not terminal. */
  lemma TablePointerEntry(table: u64)
    ensures Present(New(table, P + RW)) && !PageSizeBit(New(table, P + RW))
    ensures Address(New(table, P + RW)) == AddressBits(table)
  {
    BitsOfSmallSum(AddressBits(table), P + RW);
  }

  /** A page table in memory: 512 entries updated in place. */
  class PageTable {
    var entries: array<PageTableEntry>

    ghost predicate Valid()
      reads this
    {
      entries.Length == NUM_ENTRIES
    }

    /** `set_entry`: write entry `idx`; an index past the last entry panics. */
    method SetEntry(idx: nat, entry: PageTableEntry) returns (r: Result<()>)
      requires Valid()
      modifies entries
      ensures r.Err? <==> idx >= NUM_ENTRIES
      ensures r.Err? ==> r.fault == IndexOutOfBounds && entries[..] == old(entries[..])
      ensures r.Ok? ==> entries[..] == old(entries[..])[idx := entry]
    {
      if idx >= NUM_ENTRIES {
        return Err(IndexOutOfBounds);
      }
      entries[idx] := entry;
      return Ok(());
    }

    /** `clear_entry`: zero entry `idx`; an index past the last entry panics. */
    method ClearEntry(idx: nat) returns (r: Result<()>)
      requires Valid()
      modifies entries
      ensures r.Err? <==> idx >= NUM_ENTRIES
      ensures r.Err? ==> r.fault == IndexOutOfBounds && entries[..] == old(entries[..])
      ensures r.Ok? ==> entries[..] == old(entries[..])[idx := FromU64(0)] && Invalid(entries[idx])
    {
      if idx >= NUM_ENTRIES {
        return Err(IndexOutOfBounds);
      }
      entries[idx] := FromU64(0);
      return Ok(());
    }

    function Entries(): (s: seq<PageTableEntry>)
      requires Valid()
      reads this, entries
      ensures |s| == NUM_ENTRIES
      ensures forall i :: 0 <= i < NUM_ENTRIES ==> s[i] == entries[i]
    {
      entries[..]
    }
  }

  // Virtual addresses.

  const SEXT_BASE: int := 0x1_0000_0000_0000   // bit 48, the lowest bit of SEXT_MASK

  /** Bits 39-47: `(v & PML4_IDX_MASK) >> 39`. */
  function Pml4Idx(v: u64): (i: nat)
    ensures i < NUM_ENTRIES
  {
    v % 0x1_0000_0000_0000 / 0x80_0000_0000
  }

  /** Bits 30-38: `(v & PDP_IDX_MASK) >> 30`. */
  function PdpIdx(v: u64): (i: nat)
    ensures i < NUM_ENTRIES
  {
    v % 0x80_0000_0000 / 0x4000_0000
  }

  /** Bits 21-29: `(v & PD_IDX_MASK) >> 21`. */
  function PdIdx(v: u64): (i: nat)
    ensures i < NUM_ENTRIES
  {
    v % 0x4000_0000 / 0x20_0000
  }

  /** Bits 12-20: `(v & PT_IDX_MASK) >> 12`. */
  function PtIdx(v: u64): (i: nat)
    ensures i < NUM_ENTRIES
  {
    v % 0x20_0000 / 0x1000
  }

  datatype Indices = Indices(pml4: nat, pdp: nat, pd: nat, pt: nat)

  function Decompose(v: u64): (x: Indices)
    ensures x.pml4 < NUM_ENTRIES && x.pdp < NUM_ENTRIES && x.pd < NUM_ENTRIES && x.pt < NUM_ENTRIES
  {
    Indices(Pml4Idx(v), PdpIdx(v), PdIdx(v), PtIdx(v))
  }

  /** Bits 48-63 copy bit 47. */
  predicate IsCanonical(v: u64)
  {
    if v / 0x8000_0000_0000 % 2 == 1 then v / SEXT_BASE == 0xffff else v / SEXT_BASE == 0
  }

  /** Canonical addresses are the lowest and the highest 2^47 addresses. */
  lemma CanonicalHalves(v: u64)
    ensures IsCanonical(v) <==> v < 0x8000_0000_0000 || v >= U64_LIMIT - 0x8000_0000_0000
  {
    var hi := v / SEXT_BASE;
    assert v == hi * SEXT_BASE + v % SEXT_BASE;
    assert v / 0x8000_0000_0000 == 2 * hi + v % SEXT_BASE / 0x8000_0000_0000;
  }

  /** The four indices and the page offset together make up the low 48 bits. */
  lemma DecomposeReassembles(v: u64)
    ensures v % SEXT_BASE == Pml4Idx(v) * 0x80_0000_0000 + PdpIdx(v) * 0x4000_0000
                             + PdIdx(v) * 0x20_0000 + PtIdx(v) * 0x1000 + v % 0x1000
  {
    PeelField(v, 0x200, 0x80_0000_0000);
    PeelField(v, 0x200, 0x4000_0000);
    PeelField(v, 0x200, 0x20_0000);
    PeelField(v, 0x200, 0x1000);
  }

  /** The canonical, page-aligned address with the given indices: the inverse of `Decompose`. */
  function CanonicalFromIndex(x: Indices): (v: u64)
    requires x.pml4 < NUM_ENTRIES && x.pdp < NUM_ENTRIES && x.pd < NUM_ENTRIES && x.pt < NUM_ENTRIES
    ensures IsCanonical(v) && v % 0x1000 == 0
  {
    var low := x.pml4 * 0x80_0000_0000 + x.pdp * 0x4000_0000 + x.pd * 0x20_0000 + x.pt * 0x1000;
    LowBitsBound(x);
    var v := if x.pml4 >= 256 then 0xffff * SEXT_BASE + low else low;
    CanonicalHalves(v);
    v
  }

  lemma LowBitsBound(x: Indices)
    requires x.pml4 < NUM_ENTRIES && x.pdp < NUM_ENTRIES && x.pd < NUM_ENTRIES && x.pt < NUM_ENTRIES
    ensures var low := x.pml4 * 0x80_0000_0000 + x.pdp * 0x4000_0000 + x.pd * 0x20_0000 + x.pt * 0x1000;
            0 <= low < SEXT_BASE && low % 0x1000 == 0
            && (x.pml4 >= 256 <==> low >= 0x8000_0000_0000)
            && low / 0x80_0000_0000 == x.pml4
  {
  }

  /** Decomposing the address built from indices gives those indices back. */
  lemma DecomposeCanonicalFromIndex(x: Indices)
    requires x.pml4 < NUM_ENTRIES && x.pdp < NUM_ENTRIES && x.pd < NUM_ENTRIES && x.pt < NUM_ENTRIES
    ensures Decompose(CanonicalFromIndex(x)) == x
  {
    var v := CanonicalFromIndex(x);
    LowBitsBound(x);
    var h := v / SEXT_BASE;
    assert v == h * SEXT_BASE + x.pml4 * 0x80_0000_0000 + x.pdp * 0x4000_0000 + x.pd * 0x20_0000 + x.pt * 0x1000;
    FieldsOfSum(v, h, x);
  }

  lemma FieldsOfSum(v: int, h: int, x: Indices)
    requires 0 <= v < U64_LIMIT && 0 <= h
    requires x.pml4 < NUM_ENTRIES && x.pdp < NUM_ENTRIES && x.pd < NUM_ENTRIES && x.pt < NUM_ENTRIES
    requires v == h * SEXT_BASE + x.pml4 * 0x80_0000_0000 + x.pdp * 0x4000_0000 + x.pd * 0x20_0000 + x.pt * 0x1000
    ensures Pml4Idx(v) == x.pml4 && PdpIdx(v) == x.pdp && PdIdx(v) == x.pd && PtIdx(v) == x.pt
  {
    var r3 := x.pdp * 0x4000_0000 + x.pd * 0x20_0000 + x.pt * 0x1000;
    var r2 := x.pd * 0x20_0000 + x.pt * 0x1000;
    var r1 := x.pt * 0x1000;
    var n4 := h * 0x200 + x.pml4;
    var n3 := n4 * 0x200 + x.pdp;
    var n2 := n3 * 0x200 + x.pd;
    DivModUnique(v, h, x.pml4 * 0x80_0000_0000 + r3, SEXT_BASE);
    DivModUnique(x.pml4 * 0x80_0000_0000 + r3, x.pml4, r3, 0x80_0000_0000);
    DivModUnique(v, n4, r3, 0x80_0000_0000);
    DivModUnique(r3, x.pdp, r2, 0x4000_0000);
    DivModUnique(v, n3, r2, 0x4000_0000);
    DivModUnique(r2, x.pd, r1, 0x20_0000);
    DivModUnique(v, n2, r1, 0x20_0000);
    DivModUnique(r1, x.pt, 0, 0x1000);
  }

  /** Every canonical page-aligned address is rebuilt from its indices. */
  lemma CanonicalFromDecompose(v: u64)
    requires IsCanonical(v) && v % 0x1000 == 0
    ensures CanonicalFromIndex(Decompose(v)) == v
  {
    DecomposeReassembles(v);
    var x := Decompose(v);
    LowBitsBound(x);
    CanonicalHalves(v);
    assert v == v / SEXT_BASE * SEXT_BASE + v % SEXT_BASE;
  }
}
