// `init` of the kernel's page-table builder: zero the backing region,
// allocate the PML4, map the first 512 GiB one to one, the kernel image and
// the first heap page, and commit the PML4 to CR3; and what the processor
// then sees through that PML4.

module KernelInit {
  import opened Prelude
  import opened PhysMem
  import MemorySlots
  import Paging
  import opened KernelPaging

  /** `write_bytes(0, size)` over the backing region: every page in `start..end` reads as zero afterwards. */
  function Zeroed(mem: Memory, start: u64, end: u64): (m: Memory)
    ensures forall a: u64 :: TableAt(m, a) == if start <= a < end then ZERO_TABLE else TableAt(mem, a)
    ensures forall a: u64 :: a in m ==> !(start <= a < end)
  {
    map a | a in mem && !(start <= a < end) :: mem[a]
  }

  /** The tables after `init`, and the PML4 address committed to CR3. */
  datatype KernelTables = KernelTables(state: PagingState, cr3: u64)

  /**
   * `init`: take over the region of `ptDesc`, zero it, allocate the PML4
   * (rejecting a null one), map the first 512 GiB one to one with 1 GiB
   * pages, the 64 MiB kernel image at `textBase` to `KERNEL_PHYS_BASE`
   * with 2 MiB pages and one 1 GiB heap page at `heapBase`, then commit
   * the PML4 to CR3. The two virtual bases are link-time symbols, so they
   * are parameters.
   */
  function InitSpec(mem: Memory, ptDesc: MemoryDesc, heapDesc: MemoryDesc, textBase: u64, heapBase: u64)
    : Result<KernelTables>
  {
    var start, end := ptDesc.range.start, ptDesc.range.end;
    match AllocatePage(start, end)
    case Err(f) => Err(f)
    case Ok(root) =>
      if root == 0 then Err(NullTablePointer)
      else
        var s0 := PagingState(Zeroed(mem, start, end), Wrap(root + PAGE_BYTES));
        match MapPagesSpec(s0, end, root, 0, 0, Paging.Size1GiB, 512)
        case Err(f) => Err(f)
        case Ok(s1) =>
          match MapPagesSpec(s1, end, root, textBase, MemorySlots.KERNEL_PHYS_BASE, Paging.Size2MiB, 32)
          case Err(f) => Err(f)
          case Ok(s2) =>
            match MapPagesSpec(s2, end, root, heapBase, heapDesc.range.start, Paging.Size1GiB, 1)
            case Err(f) => Err(f)
            case Ok(s3) => Ok(KernelTables(s3, root))
  }

  /** After zeroing and allocating the PML4, the region holds a one-table tree. */
  lemma InitialTree(mem: Memory, start: u64, end: u64)
    requires start % PAGE_BYTES == 0 && start + PAGE_BYTES < end <= PHYS_LIMIT
    ensures Wf(PagingState(Zeroed(mem, start, end), start + PAGE_BYTES), start, end, start, map[start := Pml4])
  {
    var m := Zeroed(mem, start, end);
    assert TableAt(m, start) == ZERO_TABLE;
    forall i | 0 <= i < Paging.NUM_ENTRIES
      ensures !IsTablePointer(Paging.PML4, TableAt(m, start)[i])
    {
      assert Paging.Invalid(ZERO_TABLE[i]);
    }
  }

  /** The PML4 and PDP indices of an address inside the `w`-th 1 GiB window. */
  lemma GiBWindow(u: u64, w: nat)
    requires w * 0x4000_0000 <= u < w * 0x4000_0000 + 0x4000_0000
    ensures Paging.Pml4Idx(u) == w / 512 % 512 && Paging.PdpIdx(u) == w % 512
  {
    var r := u - w * 0x4000_0000;
    var a, b := w % 512, w / 512;
    var c, d := b % 512, b / 512;
    assert u == b * 0x80_0000_0000 + (a * 0x4000_0000 + r);
    DivModUnique(u, b, a * 0x4000_0000 + r, 0x80_0000_0000);
    DivModUnique(a * 0x4000_0000 + r, a, r, 0x4000_0000);
    assert u == d * 0x1_0000_0000_0000 + (c * 0x80_0000_0000 + a * 0x4000_0000 + r);
    DivModUnique(u, d, c * 0x80_0000_0000 + a * 0x4000_0000 + r, 0x1_0000_0000_0000);
    DivModUnique(c * 0x80_0000_0000 + a * 0x4000_0000 + r, c, a * 0x4000_0000 + r, 0x80_0000_0000);
  }

  /** A run inside the `w`-th 1 GiB window only has keys with that window's PML4 and PDP indices. */
  lemma RunKeysInWindow(v: u64, p: u64, endV: u64, endP: u64, pagesz: Paging.PageSize, keysize: Paging.PageSize, w: nat,
                        key: Paging.Indices)
    requires key in RunKeys(v, p, endV, endP, pagesz, keysize)
    requires w * 0x4000_0000 <= v && endV <= w * 0x4000_0000 + 0x4000_0000
    ensures key.pml4 == w / 512 % 512 && key.pdp == w % 512
  {
    RunKeysWithin(v, p, endV, endP, pagesz, keysize, key);
    var u: u64 :| v <= u < endV && key == SlotKey(keysize, Paging.Decompose(u));
    GiBWindow(u, w);
  }

  /** A run below 512 GiB only has keys with PML4 index 0. */
  lemma RunKeysLow(v: u64, p: u64, endV: u64, endP: u64, pagesz: Paging.PageSize, keysize: Paging.PageSize, key: Paging.Indices)
    requires key in RunKeys(v, p, endV, endP, pagesz, keysize)
    requires endV <= 0x80_0000_0000
    ensures key.pml4 == 0
  {
    RunKeysWithin(v, p, endV, endP, pagesz, keysize, key);
    var u: u64 :| v <= u < endV && key == SlotKey(keysize, Paging.Decompose(u));
    DivModUnique(u, 0, u, 0x1_0000_0000_0000);
    DivModUnique(u, 0, u, 0x80_0000_0000);
  }

  /** A mapped page the run does not touch stays mapped. */
  lemma MapsPageKept(m: Memory, m': Memory, root: u64, pagesz: Paging.PageSize,
                     keys: set<Paging.Indices>, gibKeys: set<Paging.Indices>, u: u64, q: int, psz: Paging.PageSize)
    requires RunFrame(m, m', root, pagesz, keys, gibKeys)
    requires SlotKey(pagesz, Paging.Decompose(u)) !in keys
    requires pagesz == Paging.Size1GiB || SlotKey(Paging.Size1GiB, Paging.Decompose(u)) !in gibKeys
    ensures MapsPage(m, root, u, q, psz) ==> MapsPage(m', root, u, q, psz)
  {
    var x := Paging.Decompose(u);
    assert UntouchedBy(pagesz, x, keys, gibKeys, WalkFrom(m, root, Paging.PML4, x));
  }

  // The layout `init` sets up, at the virtual bases the kernel's memory
  // layout documents for the image and the heap.

  /** Virtual base of the kernel image: PML4 index 511, PDP index 510. */
  const TEXT_BASE: u64 := 0xffff_ffff_8000_0000
  /** Virtual base of the kernel heap: PML4 index 511, PDP index 320. */
  const HEAP_BASE: u64 := 0xffff_ffd0_0000_0000

  /** The 1 GiB window (`address / 2^30`) each of them lies in. */
  const TEXT_WINDOW: nat := 0x3_ffff_fffe
  const HEAP_WINDOW: nat := 0x3_ffff_ff40

  /**
   * Indices outside the three windows `init` maps: not PML4 entry 0 (the
   * identity map), not the heap's 1 GiB at PML4 entry 511, PDP entry 320,
   * and not the image's 64 MiB at PML4 entry 511, PDP entry 510, PD entries
   * 0 to 31.
   */
  predicate OutsideLayout(x: Paging.Indices)
  {
    x.pml4 != 0 && !(x.pml4 == 511 && (x.pdp == 320 || (x.pdp == 510 && x.pd < 32)))
  }

  /** No walk along indices outside the three windows reaches a page. */
  ghost predicate NothingElseMapped(m: Memory, root: u64)
  {
    forall x :: IndicesInRange(x) && OutsideLayout(x) ==> WalkFrom(m, root, Paging.PML4, x) == NotMapped
  }

  /** The freshly zeroed PML4 maps nothing at all. */
  lemma ZeroedRootMapsNothing(mem: Memory, start: u64, end: u64)
    requires start < end
    ensures NothingElseMapped(Zeroed(mem, start, end), start)
  {
    forall x | IndicesInRange(x) && OutsideLayout(x)
      ensures WalkFrom(Zeroed(mem, start, end), start, Paging.PML4, x) == NotMapped
    {
      assert Paging.Invalid(ZERO_TABLE[x.pml4]);
    }
  }

  /** The PD index of an address in the first 64 MiB of the `w`-th 1 GiB window is below 32. */
  lemma ImagePd(u: u64, w: nat)
    requires w * 0x4000_0000 <= u < w * 0x4000_0000 + 0x400_0000
    ensures Paging.PdIdx(u) < 32
  {
    DivModUnique(u, w, u - w * 0x4000_0000, 0x4000_0000);
  }

  /** A run inside the first 64 MiB of the `w`-th 1 GiB window only has 2 MiB keys with PD index below 32. */
  lemma RunKeysInImageWindow(v: u64, p: u64, endV: u64, endP: u64, pagesz: Paging.PageSize, w: nat, key: Paging.Indices)
    requires key in RunKeys(v, p, endV, endP, pagesz, Paging.Size2MiB)
    requires w * 0x4000_0000 <= v && endV <= w * 0x4000_0000 + 0x400_0000
    ensures key.pd < 32
  {
    RunKeysWithin(v, p, endV, endP, pagesz, Paging.Size2MiB, key);
    var u: u64 :| v <= u < endV && key == SlotKey(Paging.Size2MiB, Paging.Decompose(u));
    ImagePd(u, w);
  }

  /** The kernel-image run ends 64 MiB past `TEXT_BASE`. */
  lemma ImageRunEnd()
    ensures RangeEnd(TEXT_BASE, Paging.Size2MiB, 32) == TEXT_BASE + 0x400_0000
  {
  }

  /** Every 2 MiB page of a run over the image's 64 MiB lies at PML4 entry 511, PDP entry 510, PD entry 0 to 31. */
  lemma ImageKey(endV: u64, endP: u64, key: Paging.Indices)
    requires endV == TEXT_BASE + 0x400_0000
    requires key in RunKeys(TEXT_BASE, MemorySlots.KERNEL_PHYS_BASE, endV, endP, Paging.Size2MiB, Paging.Size2MiB)
    ensures key.pml4 == 511 && key.pdp == 510 && key.pd < 32
  {
    RunKeysInWindow(TEXT_BASE, MemorySlots.KERNEL_PHYS_BASE, endV, endP, Paging.Size2MiB, Paging.Size2MiB,
                    TEXT_WINDOW, key);
    RunKeysInImageWindow(TEXT_BASE, MemorySlots.KERNEL_PHYS_BASE, endV, endP, Paging.Size2MiB, TEXT_WINDOW, key);
  }

  /** A run none of whose pages an index outside the layout falls in keeps every such walk unmapped. */
  lemma RunLeavesRest(m: Memory, m': Memory, root: u64, pagesz: Paging.PageSize,
                      keys: set<Paging.Indices>, gibKeys: set<Paging.Indices>)
    requires RunFrame(m, m', root, pagesz, keys, gibKeys)
    requires forall x :: IndicesInRange(x) && OutsideLayout(x) ==> SlotKey(pagesz, x) !in keys
    ensures NothingElseMapped(m, root) ==> NothingElseMapped(m', root)
  {
  }

  /** The identity run ends at 512 GiB. */
  lemma IdentityRunEnd()
    ensures RangeEnd(0, Paging.Size1GiB, 512) == 0x80_0000_0000
  {
  }

  /** Every 1 GiB page of a run over the first 512 GiB lies at PML4 entry 0. */
  lemma IdentityKey(endV: u64, key: Paging.Indices)
    requires endV == 0x80_0000_0000
    requires key in RunKeys(0, 0, endV, endV, Paging.Size1GiB, Paging.Size1GiB)
    ensures key.pml4 == 0
  {
    RunKeysLow(0, 0, endV, endV, Paging.Size1GiB, Paging.Size1GiB, key);
  }

  /** The identity run only touches PML4 entry 0, so every walk outside the layout stays unmapped. */
  lemma IdentityRunLeavesRest(m0: Memory, m1: Memory, root: u64)
    requires RunFrame(m0, m1, root, Paging.Size1GiB,
               RunKeys(0, 0, RangeEnd(0, Paging.Size1GiB, 512), RangeEnd(0, Paging.Size1GiB, 512),
                       Paging.Size1GiB, Paging.Size1GiB),
               RunKeys(0, 0, RangeEnd(0, Paging.Size1GiB, 512), RangeEnd(0, Paging.Size1GiB, 512),
                       Paging.Size1GiB, Paging.Size1GiB))
    ensures NothingElseMapped(m0, root) ==> NothingElseMapped(m1, root)
  {
    var endV := RangeEnd(0, Paging.Size1GiB, 512);
    var keys := RunKeys(0, 0, endV, endV, Paging.Size1GiB, Paging.Size1GiB);
    IdentityRunEnd();
    forall key | key in keys ensures key.pml4 == 0 {
      IdentityKey(endV, key);
    }
    RunLeavesRest(m0, m1, root, Paging.Size1GiB, keys, keys);
  }

  /** The kernel-image run only touches its 64 MiB window, so every walk outside the layout stays unmapped. */
  lemma ImageRunLeavesRest(m1: Memory, m2: Memory, root: u64)
    requires RunFrame(m1, m2, root, Paging.Size2MiB,
               RunKeys(TEXT_BASE, MemorySlots.KERNEL_PHYS_BASE, RangeEnd(TEXT_BASE, Paging.Size2MiB, 32),
                       RangeEnd(MemorySlots.KERNEL_PHYS_BASE, Paging.Size2MiB, 32), Paging.Size2MiB, Paging.Size2MiB),
               RunKeys(TEXT_BASE, MemorySlots.KERNEL_PHYS_BASE, RangeEnd(TEXT_BASE, Paging.Size2MiB, 32),
                       RangeEnd(MemorySlots.KERNEL_PHYS_BASE, Paging.Size2MiB, 32), Paging.Size2MiB, Paging.Size1GiB))
    ensures NothingElseMapped(m1, root) ==> NothingElseMapped(m2, root)
  {
    var endV, endP := RangeEnd(TEXT_BASE, Paging.Size2MiB, 32), RangeEnd(MemorySlots.KERNEL_PHYS_BASE, Paging.Size2MiB, 32);
    var keys := RunKeys(TEXT_BASE, MemorySlots.KERNEL_PHYS_BASE, endV, endP, Paging.Size2MiB, Paging.Size2MiB);
    var gibKeys := RunKeys(TEXT_BASE, MemorySlots.KERNEL_PHYS_BASE, endV, endP, Paging.Size2MiB, Paging.Size1GiB);
    ImageRunEnd();
    forall key | key in keys ensures key.pml4 == 511 && key.pdp == 510 && key.pd < 32 {
      ImageKey(endV, endP, key);
    }
    RunLeavesRest(m1, m2, root, Paging.Size2MiB, keys, gibKeys);
  }

  /** The heap run only touches PML4 entry 511, PDP entry 320, so every walk outside the layout stays unmapped. */
  lemma HeapRunLeavesRest(m2: Memory, m3: Memory, root: u64, heapStart: u64)
    requires RunFrame(m2, m3, root, Paging.Size1GiB,
               RunKeys(HEAP_BASE, heapStart, RangeEnd(HEAP_BASE, Paging.Size1GiB, 1),
                       RangeEnd(heapStart, Paging.Size1GiB, 1), Paging.Size1GiB, Paging.Size1GiB),
               RunKeys(HEAP_BASE, heapStart, RangeEnd(HEAP_BASE, Paging.Size1GiB, 1),
                       RangeEnd(heapStart, Paging.Size1GiB, 1), Paging.Size1GiB, Paging.Size1GiB))
    ensures NothingElseMapped(m2, root) ==> NothingElseMapped(m3, root)
  {
    var endV, endP := RangeEnd(HEAP_BASE, Paging.Size1GiB, 1), RangeEnd(heapStart, Paging.Size1GiB, 1);
    var keys := RunKeys(HEAP_BASE, heapStart, endV, endP, Paging.Size1GiB, Paging.Size1GiB);
    forall key | key in keys ensures key.pml4 == 511 && key.pdp == 320 {
      RunKeysInWindow(HEAP_BASE, heapStart, endV, endP, Paging.Size1GiB, Paging.Size1GiB, HEAP_WINDOW, key);
    }
    RunLeavesRest(m2, m3, root, Paging.Size1GiB, keys, keys);
  }

  /** The tables built so far satisfy the builder's invariant for some assignment of roles. */
  ghost predicate Built(s: PagingState, start: u64, end: u64, root: u64)
  {
    exists roles :: Wf(s, start, end, root, roles)
  }

  /** Identity page `k` survives a later run whose keys all lie outside PML4 entry 0. */
  lemma IdentityPageKept(m: Memory, m': Memory, root: u64, pagesz: Paging.PageSize,
                         keys: set<Paging.Indices>, gibKeys: set<Paging.Indices>, k: nat)
    requires k < 512 && RunFrame(m, m', root, pagesz, keys, gibKeys)
    requires forall key :: key in keys ==> key.pml4 != 0
    requires forall key :: key in gibKeys ==> key.pml4 != 0
    requires MapsPage(m, root, PageAt(0, k, Paging.Bytes(Paging.Size1GiB)), PageAt(0, k, Paging.Bytes(Paging.Size1GiB)), Paging.Size1GiB)
    ensures MapsPage(m', root, PageAt(0, k, Paging.Bytes(Paging.Size1GiB)), PageAt(0, k, Paging.Bytes(Paging.Size1GiB)), Paging.Size1GiB)
  {
    var u: u64 := k * 0x4000_0000;
    DivModUnique(u, 0, u, 0x1_0000_0000_0000);
    DivModUnique(u, 0, u, 0x80_0000_0000);
    MapsPageKept(m, m', root, pagesz, keys, gibKeys, u, u, Paging.Size1GiB);
  }

  /** The identity-mapped pages survive a later run whose keys all lie outside PML4 entry 0. */
  lemma IdentityKept(m: Memory, m': Memory, root: u64, pagesz: Paging.PageSize,
                     keys: set<Paging.Indices>, gibKeys: set<Paging.Indices>)
    requires RunFrame(m, m', root, pagesz, keys, gibKeys)
    requires forall key :: key in keys ==> key.pml4 != 0
    requires forall key :: key in gibKeys ==> key.pml4 != 0
    requires PagesMapped(m, root, 0, 0, Paging.Size1GiB, 512)
    ensures PagesMapped(m', root, 0, 0, Paging.Size1GiB, 512)
  {
    forall k | 0 <= k < 512
      ensures MapsPage(m', root, PageAt(0, k, Paging.Bytes(Paging.Size1GiB)), PageAt(0, k, Paging.Bytes(Paging.Size1GiB)),
                       Paging.Size1GiB)
    {
      IdentityPageKept(m, m', root, pagesz, keys, gibKeys, k);
    }
  }

  /** Kernel-image page `k` survives a later 1 GiB run whose keys avoid the image's 1 GiB window. */
  lemma TextPageKept(m: Memory, m': Memory, root: u64, keys: set<Paging.Indices>, gibKeys: set<Paging.Indices>, k: nat)
    requires k < 32 && RunFrame(m, m', root, Paging.Size1GiB, keys, gibKeys)
    requires forall key :: key in keys ==> key.pdp != TEXT_WINDOW % 512
    requires MapsPage(m, root, PageAt(TEXT_BASE, k, Paging.Bytes(Paging.Size2MiB)),
                      PageAt(MemorySlots.KERNEL_PHYS_BASE, k, Paging.Bytes(Paging.Size2MiB)), Paging.Size2MiB)
    ensures MapsPage(m', root, PageAt(TEXT_BASE, k, Paging.Bytes(Paging.Size2MiB)),
                     PageAt(MemorySlots.KERNEL_PHYS_BASE, k, Paging.Bytes(Paging.Size2MiB)), Paging.Size2MiB)
  {
    var u: u64 := TEXT_BASE + k * 0x20_0000;
    GiBWindow(u, TEXT_WINDOW);
    MapsPageKept(m, m', root, Paging.Size1GiB, keys, gibKeys, u,
                 PageAt(MemorySlots.KERNEL_PHYS_BASE, k, Paging.Bytes(Paging.Size2MiB)), Paging.Size2MiB);
  }

  /** The kernel-image pages survive a later 1 GiB run whose keys avoid the image's 1 GiB window. */
  lemma TextKept(m: Memory, m': Memory, root: u64, keys: set<Paging.Indices>, gibKeys: set<Paging.Indices>)
    requires RunFrame(m, m', root, Paging.Size1GiB, keys, gibKeys)
    requires forall key :: key in keys ==> key.pdp != TEXT_WINDOW % 512
    requires PagesMapped(m, root, TEXT_BASE, MemorySlots.KERNEL_PHYS_BASE, Paging.Size2MiB, 32)
    ensures PagesMapped(m', root, TEXT_BASE, MemorySlots.KERNEL_PHYS_BASE, Paging.Size2MiB, 32)
  {
    forall k | 0 <= k < 32
      ensures MapsPage(m', root, PageAt(TEXT_BASE, k, Paging.Bytes(Paging.Size2MiB)),
                       PageAt(MemorySlots.KERNEL_PHYS_BASE, k, Paging.Bytes(Paging.Size2MiB)), Paging.Size2MiB)
    {
      TextPageKept(m, m', root, keys, gibKeys, k);
    }
  }

  /** The kernel-image run lies in PML4 entry 511, so the identity mapping survives it. */
  lemma TextRunApart(m1: Memory, m2: Memory, root: u64)
    requires PagesMapped(m1, root, 0, 0, Paging.Size1GiB, 512)
    requires RunFrame(m1, m2, root, Paging.Size2MiB,
               RunKeys(TEXT_BASE, MemorySlots.KERNEL_PHYS_BASE, RangeEnd(TEXT_BASE, Paging.Size2MiB, 32),
                       RangeEnd(MemorySlots.KERNEL_PHYS_BASE, Paging.Size2MiB, 32), Paging.Size2MiB, Paging.Size2MiB),
               RunKeys(TEXT_BASE, MemorySlots.KERNEL_PHYS_BASE, RangeEnd(TEXT_BASE, Paging.Size2MiB, 32),
                       RangeEnd(MemorySlots.KERNEL_PHYS_BASE, Paging.Size2MiB, 32), Paging.Size2MiB, Paging.Size1GiB))
    ensures PagesMapped(m2, root, 0, 0, Paging.Size1GiB, 512)
  {
    var endV, endP := RangeEnd(TEXT_BASE, Paging.Size2MiB, 32), RangeEnd(MemorySlots.KERNEL_PHYS_BASE, Paging.Size2MiB, 32);
    var keys := RunKeys(TEXT_BASE, MemorySlots.KERNEL_PHYS_BASE, endV, endP, Paging.Size2MiB, Paging.Size2MiB);
    var gibKeys := RunKeys(TEXT_BASE, MemorySlots.KERNEL_PHYS_BASE, endV, endP, Paging.Size2MiB, Paging.Size1GiB);
    forall key | key in keys ensures key.pml4 != 0 {
      RunKeysInWindow(TEXT_BASE, MemorySlots.KERNEL_PHYS_BASE, endV, endP, Paging.Size2MiB, Paging.Size2MiB,
                      TEXT_WINDOW, key);
    }
    forall key | key in gibKeys ensures key.pml4 != 0 {
      RunKeysInWindow(TEXT_BASE, MemorySlots.KERNEL_PHYS_BASE, endV, endP, Paging.Size2MiB, Paging.Size1GiB,
                      TEXT_WINDOW, key);
    }
    IdentityKept(m1, m2, root, Paging.Size2MiB, keys, gibKeys);
  }

  /** The heap run lies in PML4 entry 511, PDP entry 320, so the two earlier mappings survive it. */
  lemma HeapRunApart(m2: Memory, m3: Memory, root: u64, heapStart: u64)
    requires PagesMapped(m2, root, 0, 0, Paging.Size1GiB, 512)
    requires PagesMapped(m2, root, TEXT_BASE, MemorySlots.KERNEL_PHYS_BASE, Paging.Size2MiB, 32)
    requires RunFrame(m2, m3, root, Paging.Size1GiB,
               RunKeys(HEAP_BASE, heapStart, RangeEnd(HEAP_BASE, Paging.Size1GiB, 1),
                       RangeEnd(heapStart, Paging.Size1GiB, 1), Paging.Size1GiB, Paging.Size1GiB),
               RunKeys(HEAP_BASE, heapStart, RangeEnd(HEAP_BASE, Paging.Size1GiB, 1),
                       RangeEnd(heapStart, Paging.Size1GiB, 1), Paging.Size1GiB, Paging.Size1GiB))
    ensures PagesMapped(m3, root, 0, 0, Paging.Size1GiB, 512)
    ensures PagesMapped(m3, root, TEXT_BASE, MemorySlots.KERNEL_PHYS_BASE, Paging.Size2MiB, 32)
  {
    var endV, endP := RangeEnd(HEAP_BASE, Paging.Size1GiB, 1), RangeEnd(heapStart, Paging.Size1GiB, 1);
    var keys := RunKeys(HEAP_BASE, heapStart, endV, endP, Paging.Size1GiB, Paging.Size1GiB);
    forall key | key in keys ensures key.pml4 == 511 && key.pdp == 320 {
      RunKeysInWindow(HEAP_BASE, heapStart, endV, endP, Paging.Size1GiB, Paging.Size1GiB, HEAP_WINDOW, key);
    }
    IdentityKept(m2, m3, root, Paging.Size1GiB, keys, keys);
    TextKept(m2, m3, root, keys, keys);
  }

  /** The first `map_pages` of `init`: the first 512 GiB one to one. */
  lemma IdentityPhase(s0: PagingState, s1: PagingState, start: u64, end: u64, root: u64)
    requires Built(s0, start, end, root)
    requires MapPagesSpec(s0, end, root, 0, 0, Paging.Size1GiB, 512) == Ok(s1)
    ensures Built(s1, start, end, root)
    ensures PagesMapped(s1.mem, root, 0, 0, Paging.Size1GiB, 512)
    ensures NothingElseMapped(s0.mem, root) ==> NothingElseMapped(s1.mem, root)
  {
    var roles :| Wf(s0, start, end, root, roles);
    var roles' := MapPagesSpecOutcome(s0, s1, start, end, root, roles, 0, 0, Paging.Size1GiB, 512);
    IdentityRunLeavesRest(s0.mem, s1.mem, root);
  }

  /** The second `map_pages` of `init`: the kernel image, leaving the identity mapping intact. */
  lemma TextPhase(s1: PagingState, s2: PagingState, start: u64, end: u64, root: u64)
    requires Built(s1, start, end, root) && PagesMapped(s1.mem, root, 0, 0, Paging.Size1GiB, 512)
    requires MapPagesSpec(s1, end, root, TEXT_BASE, MemorySlots.KERNEL_PHYS_BASE, Paging.Size2MiB, 32) == Ok(s2)
    ensures Built(s2, start, end, root) && PagesMapped(s2.mem, root, 0, 0, Paging.Size1GiB, 512)
    ensures PagesMapped(s2.mem, root, TEXT_BASE, MemorySlots.KERNEL_PHYS_BASE, Paging.Size2MiB, 32)
    ensures NothingElseMapped(s1.mem, root) ==> NothingElseMapped(s2.mem, root)
  {
    var roles :| Wf(s1, start, end, root, roles);
    var roles' := MapPagesSpecOutcome(s1, s2, start, end, root, roles, TEXT_BASE, MemorySlots.KERNEL_PHYS_BASE,
                                      Paging.Size2MiB, 32);
    TextRunApart(s1.mem, s2.mem, root);
    ImageRunLeavesRest(s1.mem, s2.mem, root);
  }

  /** The last `map_pages` of `init`: the heap page, leaving both earlier mappings intact. */
  lemma HeapPhase(s2: PagingState, s3: PagingState, start: u64, end: u64, root: u64, heapStart: u64)
    requires heapStart + 0x4000_0000 < U64_LIMIT
    requires Built(s2, start, end, root) && PagesMapped(s2.mem, root, 0, 0, Paging.Size1GiB, 512)
    requires PagesMapped(s2.mem, root, TEXT_BASE, MemorySlots.KERNEL_PHYS_BASE, Paging.Size2MiB, 32)
    requires MapPagesSpec(s2, end, root, HEAP_BASE, heapStart, Paging.Size1GiB, 1) == Ok(s3)
    ensures PagesMapped(s3.mem, root, 0, 0, Paging.Size1GiB, 512)
    ensures PagesMapped(s3.mem, root, TEXT_BASE, MemorySlots.KERNEL_PHYS_BASE, Paging.Size2MiB, 32)
    ensures PagesMapped(s3.mem, root, HEAP_BASE, heapStart, Paging.Size1GiB, 1)
    ensures NothingElseMapped(s2.mem, root) ==> NothingElseMapped(s3.mem, root)
  {
    var roles :| Wf(s2, start, end, root, roles);
    var roles' := MapPagesSpecOutcome(s2, s3, start, end, root, roles, HEAP_BASE, heapStart, Paging.Size1GiB, 1);
    HeapRunApart(s2.mem, s3.mem, root, heapStart);
    HeapRunLeavesRest(s2.mem, s3.mem, root, heapStart);
  }

  /**
   * What the processor sees through CR3 after a successful `init` over a
   * 4 KiB-aligned table region below 2^52, with the heap descriptor one
   * 1 GiB page: the PML4 is the first page of the region, the first 512 GiB
   * are mapped one to one with 1 GiB pages, the 64 MiB at `TEXT_BASE` map
   * the kernel image at `KERNEL_PHYS_BASE` with 2 MiB pages, and the 1 GiB
   * at `HEAP_BASE` maps the heap region; later runs leave earlier ones
   * intact, because the three lie in different parts of the tree; and every
   * walk outside those three windows is unmapped, since the region was
   * zeroed and no run touches it.
   */
  lemma InitOutcome(mem: Memory, ptDesc: MemoryDesc, heapDesc: MemoryDesc)
    requires ptDesc.range.start <= ptDesc.range.end <= PHYS_LIMIT && ptDesc.range.start % PAGE_BYTES == 0
    requires heapDesc.range.end == heapDesc.range.start + 0x4000_0000
    requires InitSpec(mem, ptDesc, heapDesc, TEXT_BASE, HEAP_BASE).Ok?
    ensures var t := InitSpec(mem, ptDesc, heapDesc, TEXT_BASE, HEAP_BASE).value;
            && t.cr3 == ptDesc.range.start
            && PagesMapped(t.state.mem, t.cr3, 0, 0, Paging.Size1GiB, 512)
            && PagesMapped(t.state.mem, t.cr3, TEXT_BASE, MemorySlots.KERNEL_PHYS_BASE, Paging.Size2MiB, 32)
            && PagesMapped(t.state.mem, t.cr3, HEAP_BASE, heapDesc.range.start, Paging.Size1GiB, 1)
            && NothingElseMapped(t.state.mem, t.cr3)
  {
    var start, end := ptDesc.range.start, ptDesc.range.end;
    var s0 := PagingState(Zeroed(mem, start, end), Wrap(start + PAGE_BYTES));
    InitialTree(mem, start, end);
    ZeroedRootMapsNothing(mem, start, end);
    var s1 := MapPagesSpec(s0, end, start, 0, 0, Paging.Size1GiB, 512).value;
    var s2 := MapPagesSpec(s1, end, start, TEXT_BASE, MemorySlots.KERNEL_PHYS_BASE, Paging.Size2MiB, 32).value;
    var s3 := MapPagesSpec(s2, end, start, HEAP_BASE, heapDesc.range.start, Paging.Size1GiB, 1).value;
    IdentityPhase(s0, s1, start, end, start);
    TextPhase(s1, s2, start, end, start);
    HeapPhase(s2, s3, start, end, start, heapDesc.range.start);
  }
}
