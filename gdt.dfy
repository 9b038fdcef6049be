// The global descriptor table (Intel SDM Vol. 3A section 3.4.5): 64-bit
// code and data descriptors packed from a base address, a privilege level, a
// 16-bit limit and a set of flag bits, and the cursor-based builder that
// writes descriptors into a fixed table of 64-bit words. Descriptors are
// 64-bit words, so the masks and shifts are the source's own.

module Gdt {
  import opened Prelude
  import opened Segment

  // DFlags bits.
  const G: bv64 := 1 << 55
  const D: bv64 := 1 << 54
  const L: bv64 := 1 << 53
  const AVL: bv64 := 1 << 52
  const P: bv64 := 1 << 47
  const S: bv64 := 1 << 44
  const E: bv64 := 1 << 43
  const C: bv64 := 1 << 42
  const W: bv64 := 1 << 41
  const A: bv64 := 1 << 40

  /** Every bit a `DFlags` value can hold. */
  const DFLAG_BITS: bv64 := G | D | L | AVL | P | S | E | C | W | A

  /** A `DFlags` set: only the named bits. */
  type DFlags = f: bv64 | f & !DFLAG_BITS == 0

  /** `DFlags::from_bits_truncate`: the named bits of `x`, the others dropped. */
  function Truncate(x: bv64): (f: DFlags)
    ensures f & x == f && (x ^ (f as bv64)) & DFLAG_BITS == 0
  {
    x & DFLAG_BITS
  }

  /** Present, user segment, 4 KiB granularity, writable or readable, accessed. */
  const DEFAULT: DFlags := Truncate(P | S | G | W | A)
  /** A 64-bit code segment: `DEFAULT` with long mode and executable. */
  const CODE: DFlags := Truncate(DEFAULT | L | E)
  /** A 64-bit data segment: `DEFAULT` with long mode. */
  const DATA: DFlags := Truncate(DEFAULT | L)

  /** A code and a data descriptor differ in the executable bit alone. */
  lemma CodeDataDifferOnlyInE()
    ensures CODE == DATA | E && DATA & E == 0
    ensures CODE ^ DATA == E
  {
  }

  // Descriptor fields.
  const SEGMENT_LIMIT_15_0_MASK: bv64 := 0x0000_0000_0000_ffff
  const BASE_ADDR_LO_MASK: bv64 := 0x0000_00ff_ffff_0000
  const DPL_MASK: bv64 := 0x3 << 45
  const BASE_ADDR_HI_MASK: bv64 := 0xff00_0000_0000_0000

  datatype Descriptor = Descriptor(val: bv64)

  /** `flags`: the flag bits the descriptor holds. */
  function Flags(d: Descriptor): (f: DFlags)
  {
    Truncate(d.val)
  }

  /** `segment_limit`: bits 15..0. */
  function SegmentLimit(d: Descriptor): bv16
  {
    (d.val & SEGMENT_LIMIT_15_0_MASK) as bv16
  }

  /** `base_addr`: base bits 31..24 from bits 63..56 and base bits 23..0 from bits 39..16. */
  function BaseAddr(d: Descriptor): bv32
  {
    (((d.val & BASE_ADDR_HI_MASK) >> 32) | ((d.val & BASE_ADDR_LO_MASK) >> 16)) as bv32
  }

  /** The privilege-level field, bits 46..45. */
  function DplBits(d: Descriptor): bv64
  {
    (d.val & DPL_MASK) >> 45
  }

  /** `new_null`: the all-zero descriptor, which names no segment. */
  function NewNull(): (d: Descriptor)
    ensures d.val == 0 && Flags(d) == 0 && Flags(d) & P == 0
    ensures BaseAddr(d) == 0 && SegmentLimit(d) == 0
  {
    Descriptor(0)
  }

  /**
   * `Descriptor::new`: base bits 31..24 at 63..56, base bits 23..0 at
   * 39..16, the privilege level at 46..45, the flags, and the limit at
   * 15..0, or-ed together. No two parts share a bit, so each reads back
   * unchanged.
   */
  function NewDescriptor(base: bv32, dpl: PrivilegeLevel, limit: bv16, flags: DFlags): (d: Descriptor)
    ensures BaseAddr(d) == base
    ensures SegmentLimit(d) == limit
    ensures Flags(d) == flags
    ensures DplBits(d) == LevelBits(dpl) as bv64
  {
    var hi := (base as bv64 & 0xff00_0000) << 32;
    var lo := (base as bv64 & 0x00ff_ffff) << 16;
    var dplBits := (LevelBits(dpl) as bv64) << 45;
    Descriptor(hi | lo | dplBits | flags | limit as bv64)
  }

  /** `KERNEL_CODE_SEL` and `KERNEL_DATA_SEL`: entries 1 and 2 of the GDT, ring 0. */
  const KERNEL_CODE_SEL: SegmentSelector := NewSelector(1, Global, Ring0)
  const KERNEL_DATA_SEL: SegmentSelector := NewSelector(2, Global, Ring0)

  /** The kernel's selectors are the byte offsets 8 and 16 of its GDT. */
  lemma KernelSelectors()
    ensures AsU16(KERNEL_CODE_SEL) == 0x8 && AsU16(KERNEL_DATA_SEL) == 0x10
    ensures Index(KERNEL_CODE_SEL) == 1 && Index(KERNEL_DATA_SEL) == 2
  {
  }

  /** The kernel's flat ring-0 code and data descriptors, base 0 and limit 0xffff. */
  const KERNEL_TEXT_DESC: Descriptor := NewDescriptor(0, Ring0, 0xffff, CODE)
  const KERNEL_DATA_DESC: Descriptor := NewDescriptor(0, Ring0, 0xffff, DATA)

  /** Their encodings, as the entry code's static GDT holds them. */
  lemma KernelDescriptors()
    ensures KERNEL_TEXT_DESC.val == 0x00a0_9b00_0000_ffff
    ensures KERNEL_DATA_DESC.val == 0x00a0_9300_0000_ffff
  {
  }

  // ---------------------------------------------------------------------
  // The builder

  /** The table's words and its cursor, as the builder's specification sees them. */
  datatype GdtState = GdtState(entries: seq<bv64>, cursor: nat)

  /** `new_zeroed`: `sz` zero words, cursor 0. */
  function Zeroed(sz: nat): (g: GdtState)
    ensures |g.entries| == sz && g.cursor == 0
    ensures forall i :: 0 <= i < sz ==> g.entries[i] == 0
  {
    GdtState(seq(sz, _ => 0), 0)
  }

  /** `push_user_desc` with the raw word `w` (and `push_null_desc` with 0): needs a free word at the cursor. */
  function PushWord(g: GdtState, w: bv64): (r: Result<GdtState>)
    requires g.cursor <= |g.entries|
    ensures r.Ok? <==> g.cursor < |g.entries|
    ensures r.Ok? ==> |r.value.entries| == |g.entries| && r.value.cursor == g.cursor + 1
    ensures r.Ok? ==> r.value.entries[g.cursor] == w
    ensures r.Ok? ==> forall i :: 0 <= i < |g.entries| && i != g.cursor ==> r.value.entries[i] == g.entries[i]
    ensures r.Err? ==> r.fault == GdtFull
  {
    if g.cursor < |g.entries| then Ok(GdtState(g.entries[g.cursor := w], g.cursor + 1))
    else Err(GdtFull)
  }

  /** `push_sys_desc`: a 128-bit descriptor in two words; needs two free words at the cursor. */
  function PushPair(g: GdtState, lo: bv64, hi: bv64): (r: Result<GdtState>)
    requires g.cursor <= |g.entries|
    ensures r.Ok? <==> g.cursor + 1 < |g.entries|
    ensures r.Ok? ==> |r.value.entries| == |g.entries| && r.value.cursor == g.cursor + 2
    ensures r.Ok? ==> r.value.entries[g.cursor] == lo && r.value.entries[g.cursor + 1] == hi
    ensures r.Ok? ==> forall i :: 0 <= i < |g.entries| && i != g.cursor && i != g.cursor + 1 ==>
                       r.value.entries[i] == g.entries[i]
    ensures r.Err? ==> r.fault == GdtFull
  {
    if g.cursor + 1 < |g.entries| then Ok(GdtState(g.entries[g.cursor := lo][g.cursor + 1 := hi], g.cursor + 2))
    else Err(GdtFull)
  }

  /**
   * The kernel's table built with the builder: a null descriptor, then its
   * code and data descriptors, fills a three-word table in selector order.
   */
  lemma KernelTableBuilt()
    ensures var g0 := Zeroed(3);
            var g1 := PushWord(g0, NewNull().val);
            g1.Ok? && var g2 := PushWord(g1.value, KERNEL_TEXT_DESC.val);
            g2.Ok? && var g3 := PushWord(g2.value, KERNEL_DATA_DESC.val);
            && g3.Ok?
            && g3.value.entries == [0, KERNEL_TEXT_DESC.val, KERNEL_DATA_DESC.val]
            && g3.value.entries[Index(KERNEL_CODE_SEL)] == KERNEL_TEXT_DESC.val
            && g3.value.entries[Index(KERNEL_DATA_SEL)] == KERNEL_DATA_DESC.val
            && PushWord(g3.value, 0).Err?
  {
    var g0 := Zeroed(3);
    var g3 := PushWord(PushWord(PushWord(g0, 0).value, KERNEL_TEXT_DESC.val).value, KERNEL_DATA_DESC.val).value;
    assert g3.entries == [0, KERNEL_TEXT_DESC.val, KERNEL_DATA_DESC.val];
    KernelSelectors();
  }

  /** `SZ_BYTES`, also `size`: the table's size in bytes, eight per word. */
  function SizeBytes(sz: nat): nat
  {
    sz * 8
  }

  /**
   * `limit`: `SZ_BYTES as u16 - 1` in wrapping 16-bit arithmetic; for a
   * table of 1 to 8192 words it is the last byte offset of the table.
   */
  function Limit(sz: nat): (l: nat)
    ensures l < 0x1_0000
    ensures 1 <= sz && SizeBytes(sz) <= 0x1_0000 ==> l == SizeBytes(sz) - 1
  {
    (SizeBytes(sz) % 0x1_0000 + 0xffff) % 0x1_0000
  }

  /** The builder itself: `entries` is a fixed array of `sz` words, `cursor` the next free one. */
  class GlobalDescriptorTable {
    const sz: nat
    var entries: array<bv64>
    var cursor: nat

    ghost predicate Valid()
      reads this
    {
      entries.Length == sz && SizeBytes(sz) <= 0x1_0000 && cursor <= sz
    }

    /** The table as its specification sees it. */
    function State(): GdtState
      reads this, entries
    {
      GdtState(entries[..], cursor)
    }

    /**
     * `new_zeroed`: `sz` zero words, cursor 0. The table may not be larger
     * than the 16-bit limit can describe, which the source checks when it is
     * compiled.
     */
    constructor NewZeroed(n: nat)
      requires SizeBytes(n) <= 0x1_0000
      ensures Valid() && fresh(entries)
      ensures sz == n && State() == Zeroed(n)
    {
      sz := n;
      entries := new bv64[n](_ => 0);
      cursor := 0;
    }

    /** `push_user_desc`: write the descriptor at the cursor and advance it; panic when the table is full. */
    method PushUserDesc(d: Descriptor) returns (r: Result<()>)
      requires Valid()
      modifies this, entries
      ensures Valid() && entries == old(entries)
      ensures var spec := PushWord(old(State()), d.val);
              (r.Ok? <==> spec.Ok?) && (r.Ok? ==> State() == spec.value) && (r.Err? ==> r.fault == spec.fault)
      ensures r.Err? ==> State() == old(State())
    {
      if cursor >= sz {
        return Err(GdtFull);
      }
      entries[cursor] := d.val;
      cursor := cursor + 1;
      return Ok(());
    }

    /** `push_null_desc`: `push_user_desc` with the null descriptor. */
    method PushNullDesc() returns (r: Result<()>)
      requires Valid()
      modifies this, entries
      ensures Valid() && entries == old(entries)
      ensures var spec := PushWord(old(State()), 0);
              (r.Ok? <==> spec.Ok?) && (r.Ok? ==> State() == spec.value) && (r.Err? ==> r.fault == spec.fault)
      ensures r.Err? ==> State() == old(State())
    {
      if cursor >= sz {
        return Err(GdtFull);
      }
      entries[cursor] := 0;
      cursor := cursor + 1;
      return Ok(());
    }

    /**
     * `push_sys_desc`: write the low word at the cursor and the high word
     * after it, advance by two; panic unless both words are free.
     */
    method PushSysDesc(lo: bv64, hi: bv64) returns (r: Result<()>)
      requires Valid()
      modifies this, entries
      ensures Valid() && entries == old(entries)
      ensures var spec := PushPair(old(State()), lo, hi);
              (r.Ok? <==> spec.Ok?) && (r.Ok? ==> State() == spec.value) && (r.Err? ==> r.fault == spec.fault)
      ensures r.Err? ==> State() == old(State())
    {
      if cursor + 1 >= sz {
        return Err(GdtFull);
      }
      entries[cursor] := lo;
      entries[cursor + 1] := hi;
      cursor := cursor + 2;
      return Ok(());
    }
  }
}
