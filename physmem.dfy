// Physical memory descriptors shared by the loader and the kernel: the kinds
// of region, a descriptor (kind and address range), the loader's fixed map of
// invalid descriptors, and frame sizes.

module PhysMem {
  import opened Prelude

  /** Where the loader places the boot arguments. */
  const BOOT_ARGS_PHYS_BASE: u64 := 0x10_0000
  /** Where the loader places its page tables. */
  const PAGE_TABLE_PHYS_BASE: u64 := 0x20_0000
  /** The loader's kernel base; the kernel itself uses `MemoryMap.KERNEL_PHYS_BASE`. */
  const LOADER_KERNEL_PHYS_BASE: u64 := 0x20_0000

  /**
   * The kind of a physical region. `KernelHeap` and `KernelPaging` are used by
   * the kernel but have no discriminant in the loader's enum.
   */
  datatype MemoryKind =
    | Invalid
    | Available
    | Reclaimable
    | BootArgs
    | KernelImage
    | AcpiNonVolatile
    | UefiRuntime
    | UefiReserved
    | KernelHeap
    | KernelPaging

  /** The `repr(u32)` value of a kind, where the loader's enum gives one. */
  function Discriminant(k: MemoryKind): (d: Option<nat>)
    ensures d.None? <==> k.KernelHeap? || k.KernelPaging?
    ensures d.Some? ==> d.value < 0x1_0000_0000
  {
    match k
    case Invalid => Some(0)
    case Available => Some(1)
    case Reclaimable => Some(2)
    case BootArgs => Some(3)
    case KernelImage => Some(4)
    case AcpiNonVolatile => Some(5)
    case UefiRuntime => Some(7)
    case UefiReserved => Some(255)
    case KernelHeap => None
    case KernelPaging => None
  }

  /** No two kinds share a discriminant. */
  lemma DiscriminantInjective(a: MemoryKind, b: MemoryKind)
    requires Discriminant(a).Some? && Discriminant(a) == Discriminant(b)
    ensures a == b
  {
  }

  /** A half-open range of physical addresses `start..end`. */
  datatype PhysRange = PhysRange(start: u64, end: u64)

  datatype MemoryDesc = MemoryDesc(kind: MemoryKind, range: PhysRange)

  predicate IsValid(d: MemoryDesc)
  {
    d.kind != Invalid && d.range.start != 0 && d.range.end != 0
  }

  function NewInvalid(): (d: MemoryDesc)
    ensures d.kind == Invalid && d.range == PhysRange(0, 0)
    ensures !IsValid(d)
  {
    MemoryDesc(Invalid, PhysRange(0, 0))
  }

  /** A region that starts at physical address 0 is never valid, whatever its kind. */
  lemma ZeroBasedNeverValid(d: MemoryDesc)
    requires d.range.start == 0 || d.range.end == 0 || d.kind == Invalid
    ensures !IsValid(d)
  {
  }

  /** Fixed number of slots in the loader's memory map. */
  const NUM_ENTRIES: nat := 128

  datatype LoaderMemoryMap = LoaderMemoryMap(entries: seq<MemoryDesc>)

  function NewEmpty(): (m: LoaderMemoryMap)
    ensures |m.entries| == NUM_ENTRIES
    ensures forall i :: 0 <= i < |m.entries| ==> m.entries[i] == NewInvalid() && !IsValid(m.entries[i])
  {
    LoaderMemoryMap(seq(NUM_ENTRIES, _ => NewInvalid()))
  }

  datatype FrameSize = Size4KiB | Size2MiB | Size1GiB

  const SZ_4KIB: u64 := 0x1000
  const SZ_2MIB: u64 := 0x20_0000
  const SZ_1GIB: u64 := 0x4000_0000

  function AsUsize(f: FrameSize): (n: nat)
    ensures n in {SZ_4KIB, SZ_2MIB, SZ_1GIB}
  {
    match f
    case Size4KiB => SZ_4KIB
    case Size2MiB => SZ_2MIB
    case Size1GiB => SZ_1GIB
  }

  /** The u64 difference `end - start`, wrapping as the release build does. */
  function RangeLength(r: PhysRange): u64
  {
    Wrap(r.end - r.start)
  }

  /** The frame size whose length is the range's; any other length panics as unreachable. */
  function FromRange(r: PhysRange): (f: Result<FrameSize>)
    ensures f.Ok? <==> RangeLength(r) in {SZ_4KIB, SZ_2MIB, SZ_1GIB}
    ensures f.Ok? ==> AsUsize(f.value) == RangeLength(r)
    ensures f.Err? ==> f.fault == NotAFrameSize
  {
    var sz := RangeLength(r);
    if sz == SZ_4KIB then Ok(Size4KiB)
    else if sz == SZ_2MIB then Ok(Size2MiB)
    else if sz == SZ_1GIB then Ok(Size1GiB)
    else Err(NotAFrameSize)
  }

  /** A frame's own extent gives the frame size back. */
  lemma {:induction false} FromRangeOfFrame(f: FrameSize, start: u64)
    requires start + AsUsize(f) < U64_LIMIT
    ensures FromRange(PhysRange(start, start + AsUsize(f))) == Ok(f)
  {
    var r := PhysRange(start, start + AsUsize(f));
    assert RangeLength(r) == AsUsize(f);
    match f
    case Size4KiB =>
    case Size2MiB =>
    case Size1GiB =>
  }
}
