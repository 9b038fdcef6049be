# mrld physical memory, paging and descriptor tables, in Dafny

This project models the memory-management and descriptor-table core of the
mrld x86-64 kernel and its loader library. It proves what these parts
promise about the machine state they build.

- **Physical memory map** (`kernel/src/physmem.rs`, `mrld/src/physmem.rs`).
  The kernel's map has 128 slots, each empty or holding a descriptor
  (a kind and a physical range). It is a class, `MemoryMap.MrldMemoryMap`,
  whose methods update the slot array in place. Each method is proved
  against a function from old slots to new slots in `MemorySlots`.
  The lemmas there cover:
  - what `allocate` and `allocate_at` hand out;
  - that the slots stay packed and the descriptors disjoint, from an
    `init` over disjoint firmware records through every allocation;
  - that an allocated region is stored in the map and overlaps no other
    live descriptor;
  - that no address is lost or invented;
  - that `init` merges adjacent firmware records and then reserves the
    kernel image.
- **Paging types** (`mrld/src/paging.rs`), in `Paging`:
  - page sizes and table levels;
  - the entry encoding, with address mask and flags;
  - the 512-entry table, as a class;
  - the split of a virtual address into table indices, and canonical
    addresses.
- **Kernel page-table builder** (`kernel/src/paging.rs`).
  `KernelPageTable.MrldPageTable` is a class that holds:
  - the backing region and the bump cursor;
  - physical memory, as a map from page address to table;
  - CR3.

  Each method is proved to agree with a specification function in
  `KernelPaging`/`KernelInit`. The lemmas there compare the result with the
  processor's 4-level walk (`KernelPaging.Walk`):
  - `map_page` keeps the tables a tree;
  - `map_page` makes every address of the page translate to the physical
    page;
  - `map_page` leaves every other translation alone;
  - `map_pages` maps each of its pages;
  - after `init`, CR3 shows the identity map of the first 512 GiB, the
    kernel image and the heap page, and nothing else is mapped.
- **x86 descriptors**:
  - segment selectors (`mrld/src/x86/segment.rs`, module `Segment`);
  - GDT descriptors and the GDT builder (`mrld/src/x86/gdt.rs`, module
    `Gdt`; the builder is a class over an array);
  - IDT entries and the IDT layout (`mrld/src/x86/idt.rs`, module `Idt`).

How Rust constructs are represented:
- A Rust `u64` is an integer in `0..2^64` (`Prelude.u64`). The release
  build's wrapping `+`, `-` and `*` are written out with `Prelude.Wrap`.
- Bit-level encodings whose source works on 8-, 16- and 64-bit words
  (selectors, GDT descriptors, IDT entries) use bit-vectors.
- A run-time panic (`assert!`, `panic!`, `unwrap`, `unimplemented!`,
  `unreachable!`) becomes `Err(fault)` of `Prelude.Result`, with a `Fault`
  naming the check. The one compile-time check, the GDT size bound, is a
  precondition instead (see "## Left out").

## Model

| member | source | states |
|---|---|---|
| Prelude.Wrap | kernel/src/paging.rs:159-163 | u64 wrap-around: a value in range is kept, any other is congruent to the result modulo 2^64 |
| PhysMem.Discriminant | mrld/src/physmem.rs:20-46 | the `repr(u32)` discriminant of each loader kind fits 32 bits; the kernel-only kinds `KernelHeap` and `KernelPaging` have none |
| PhysMem.DiscriminantInjective | mrld/src/physmem.rs:20-46 | no two memory kinds share a discriminant |
| PhysMem.NewInvalid | mrld/src/physmem.rs:62-67 | the invalid descriptor: kind `Invalid`, range `0..0`, not valid |
| PhysMem.ZeroBasedNeverValid | mrld/src/physmem.rs:58-61 | `is_valid` rejects every region starting at address 0, whatever its kind |
| PhysMem.NewEmpty | mrld/src/physmem.rs:82-89 | the loader's map: 128 entries, all invalid |
| PhysMem.AsUsize | mrld/src/physmem.rs:97-107 | a frame size is 4 KiB, 2 MiB or 1 GiB |
| PhysMem.FromRange | mrld/src/physmem.rs:108-116 | succeeds exactly when the range's length is a frame size, and then returns the frame of that length; any other length is the `unreachable!` panic |
| PhysMem.FromRangeOfFrame | mrld/src/physmem.rs:97-116 | `from_range` inverts `as_usize`: a frame's own extent gives the frame back |
| PhysRanges.NewRange | kernel/src/physmem.rs:194-195 | a range can be built exactly when its end is not below its start |
| PhysRanges.ContainsRangeMeansSubset | kernel/src/physmem.rs:197-200 | the containment test of the `allocate_at` filter is subset of addresses, in both directions |
| PhysRanges.Split | kernel/src/physmem.rs:202-224 | a split gives a pair when the request touches an end of the region, a triad when it lies strictly inside, and `Invalid` exactly when it is not contained |
| PhysRanges.SplitTiles | kernel/src/physmem.rs:202-224 | the pieces of a split are well formed, inside the region, and every address of the region lies in exactly one piece |
| PhysRanges.AlignUp | kernel/src/physmem.rs:236-243 | the lowest multiple of the page size at or above `x` |
| PhysRanges.TryGetPages | kernel/src/physmem.rs:236-243 | found pages are aligned, `count` pages long and inside the region |
| PhysRanges.TryGetPagesFirstFit | kernel/src/physmem.rs:236-243 | found pages are the lowest aligned run; when none are found, no aligned run of that length inside the region fits |
| PhysRanges.AlignedBetween | kernel/src/physmem.rs:236-243 | every aligned address at or above `x` is at or above `x` rounded up |
| PhysRanges.TryMergeWith | kernel/src/physmem.rs:152-156 | a merge happens exactly for two descriptors of one kind where the first ends where the second starts; the result has the first's kind and runs from the first's start to the second's end |
| PhysRanges.MergeCoversBoth | kernel/src/physmem.rs:152-156 | the merged descriptor covers exactly the addresses of the two it merges |
| Paging.Bytes | mrld/src/paging.rs:11-21 | every page size is a positive multiple of 4 KiB |
| Paging.NextLevel | mrld/src/paging.rs:25-35 | only PT has no next level |
| Paging.TerminalSize | mrld/src/paging.rs:63-90 | only PML4 has no terminal size |
| Paging.TerminalSizeNests | mrld/src/paging.rs:63-90 | a level's terminal size is 512 times that of the level below it |
| Paging.LevelChain | mrld/src/paging.rs:25-35 | the levels form the chain PML4, PDP, PD, PT, and PT maps 4 KiB pages |
| Paging.AddressBits | mrld/src/paging.rs:161 | `ADDRESS_MASK` keeps a 4 KiB-aligned value below 2^60, and keeps such a value unchanged |
| Paging.FromU64 | mrld/src/paging.rs:134-139 | the raw entry's address is the masked value; the entry is invalid exactly when the value is 0 |
| Paging.New | mrld/src/paging.rs:141-150 | the new entry's address is the masked address and its defined flag bits are exactly `flags` |
| Paging.NewParts | mrld/src/paging.rs:141-150 | for an aligned address below 2^60, address and flags read back separately from the sum |
| Paging.Flags | mrld/src/paging.rs:156-158 | `flags()` is the whole entry value, unknown bits retained, so its defined bits are the entry's |
| Paging.TerminalByLevel | mrld/src/paging.rs:165-181 | never terminal at PML4, always at PT, and at PDP and PD exactly when PS is set |
| Paging.NewAddressIgnoresFlags | mrld/src/paging.rs:141-188 | `address()` of a new entry does not depend on the flags, and gives an aligned address below 2^60 back unchanged |
| Paging.LeafEntry | kernel/src/paging.rs:116-143 | `P\|RW\|PS` entries are present, large-page, and map the masked physical address |
| Paging.TablePointerEntry | kernel/src/paging.rs:104-134 | `P\|RW` entries are present, not large-page, and point to the masked table address |
| Paging.PageTable.SetEntry | mrld/src/paging.rs:236-239 | writes entry `idx` and nothing else; an index of 512 or more is the `assert!` panic and leaves the table unchanged |
| Paging.PageTable.ClearEntry | mrld/src/paging.rs:241-244 | zeroes entry `idx` and nothing else; an index of 512 or more is the `assert!` panic and leaves the table unchanged |
| Paging.PageTable.Entries | mrld/src/paging.rs:247-250 | the 512 entries, in order |
| Paging.Pml4Idx | mrld/src/paging.rs:312-314 | an index below 512 (its meaning is in `DecomposeReassembles`) |
| Paging.PdpIdx | mrld/src/paging.rs:315-317 | an index below 512 |
| Paging.PdIdx | mrld/src/paging.rs:318-320 | an index below 512 |
| Paging.PtIdx | mrld/src/paging.rs:321-323 | an index below 512 |
| Paging.Decompose | mrld/src/paging.rs:292-299 | four table indices, each below 512 |
| Paging.CanonicalHalves | mrld/src/paging.rs:301-307 | canonical exactly for the lowest and highest 2^47 addresses |
| Paging.DecomposeReassembles | mrld/src/paging.rs:286-323 | the four indices and the page offset make up the low 48 bits of the address |
| Paging.CanonicalFromIndex | mrld/src/paging.rs:301-307 | the address built from indices is canonical and page aligned |
| Paging.DecomposeCanonicalFromIndex | mrld/src/paging.rs:292-299 | decomposing the address built from indices gives those indices back |
| Paging.CanonicalFromDecompose | mrld/src/paging.rs:292-307 | every canonical, page-aligned address is rebuilt from its indices |
| MemorySlots.FirstMatchFrom | kernel/src/physmem.rs:110-116 | the first slot at or after `i` whose descriptor satisfies `f`; no earlier such slot exists, and `None` means none at all |
| MemorySlots.FirstFreeFrom | kernel/src/physmem.rs:119-121 | the lowest empty slot at or after `i`; `None` means every slot from `i` is occupied |
| MemorySlots.LiveEntries | kernel/src/physmem.rs:92-95 | `iter_valid`: exactly the occupied slots' descriptors, in slot order |
| MemorySlots.FindFirst | kernel/src/physmem.rs:104-108 | `find`: the first element satisfying `f`, or none |
| MemorySlots.FirstMatchIsFirstLive | kernel/src/physmem.rs:104-116 | `find_with` and `find_mut_with` name the same descriptor: the first live match is in the first matching slot |
| MemorySlots.FreeCount | kernel/src/physmem.rs:119-125 | the number of empty slots, at most the slot count |
| MemorySlots.FreeCountUpdate | kernel/src/physmem.rs:119-125 | filling an empty slot uses up exactly one free slot; rewriting an occupied one uses none |
| MemorySlots.InsertNew | kernel/src/physmem.rs:118-125 | `allocate_new_region`: the descriptor goes into the lowest empty slot, others unchanged; panics exactly when no slot is empty |
| MemorySlots.InsertNewFree | kernel/src/physmem.rs:118-125 | inserting succeeds exactly when a slot is free, and then uses up one |
| MemorySlots.DisjointMeansNoCommonAddress | kernel/src/physmem.rs:202-224 | two ranges are disjoint exactly when no address lies in both |
| MemorySlots.CarveFailsWhenFull | kernel/src/physmem.rs:202-267 | a split panics exactly when fewer free slots remain than the pieces need (one for a pair, two for a triad) |
| MemorySlots.CarveResult | kernel/src/physmem.rs:202-267 | a successful split returns the request tagged `kind`; the candidate keeps the lower remainder; a triad's upper remainder is inserted with the candidate's kind |
| MemorySlots.CarvePreservesPacked | kernel/src/physmem.rs:202-224 | splitting keeps the occupied slots a prefix |
| MemorySlots.CarvePreservesLayout | kernel/src/physmem.rs:202-267 | splitting keeps descriptors well formed and pairwise disjoint, and covers exactly the addresses covered before |
| MemorySlots.CarvePreservesCoverage | kernel/src/physmem.rs:202-224 | splitting covers exactly the addresses covered before |
| MemorySlots.CarveSlot | kernel/src/physmem.rs:202-224 | the slots a split writes hold its pieces; all others keep their contents |
| MemorySlots.CarveSlotKind | kernel/src/physmem.rs:202-267 | after a split each slot is unchanged, or holds the request tagged with the requested kind, or holds part of the candidate's range with the candidate's kind |
| MemorySlots.CarvePiecesDistinct | kernel/src/physmem.rs:210-220 | two different slots written by one split hold two different pieces |
| MemorySlots.CoveredByPiece | kernel/src/physmem.rs:202-224 | every address of the candidate lies in one of the written slots |
| MemorySlots.AllocateAtMisaligned | kernel/src/physmem.rs:193 | `allocate_at` panics on alignment exactly when the address is not a multiple of the page size |
| MemorySlots.ReserveFaults | kernel/src/physmem.rs:197-227 | once the request is built, the only possible panic is a full map |
| MemorySlots.RequestedEndNoWrap | kernel/src/physmem.rs:194-195 | without wrap-around, the request ends `size * cnt` bytes after `addr` |
| MemorySlots.AllocateAtOutcome | kernel/src/physmem.rs:186-228 | for an aligned, non-wrapping request, `allocate_at` returns exactly `addr..addr+size*cnt` tagged `kind`, taken from the first available region containing it; otherwise it returns `None` and changes nothing, and no available region contains the request; its only panic is a full map; on success the request sits in a slot that was empty, the candidate keeps the remainder below or beside it, a request strictly inside puts the part above into another empty slot, and every other occupied slot is unchanged |
| MemorySlots.AllocateOutcome | kernel/src/physmem.rs:233-273 | `allocate` returns an aligned descriptor of `cnt` pages tagged `kind`: the pages `try_get_pages` finds in the first available region where it succeeds; `None` leaves the map unchanged, and then no available region has room for an aligned run; its only panic is a full map; on success the slots change as for `allocate_at`: the pages in a slot that was empty, the remainder in the candidate, every other occupied slot unchanged |
| MemorySlots.AllocatePreservesLayout | kernel/src/physmem.rs:233-273 | `allocate` keeps the map packed and disjoint, and covers the same addresses |
| MemorySlots.AllocateAtPreservesLayout | kernel/src/physmem.rs:186-228 | `allocate_at` keeps the map packed and disjoint, and covers the same addresses |
| MemorySlots.AllocateResultDisjoint | kernel/src/physmem.rs:233-273 | on a packed, disjoint map, the region `allocate` returns is stored in the new map and shares no address with any other live descriptor |
| MemorySlots.AllocateAtResultDisjoint | kernel/src/physmem.rs:186-228 | on a packed, disjoint map, the region `allocate_at` returns is stored in the new map and shares no address with any other live descriptor |
| MemorySlots.Records | kernel/src/physmem.rs:133-143 | `map_size / desc_size` records read `desc_size` bytes apart |
| MemorySlots.RecordAt | kernel/src/physmem.rs:141-143 | record `k` is the one at byte offset `k * desc_size` |
| MemorySlots.RecordDesc | kernel/src/physmem.rs:146-150 | a record becomes a well-formed descriptor of the converted kind starting at `phys_start`, exactly `phys_start..phys_start + page_count*0x1000` when that does not wrap; a wrapped end below the start is the inverted-range panic |
| MemorySlots.Load | kernel/src/physmem.rs:138-168 | the loop writes at most one descriptor per record and at most 128, at least one when there are records, and panics past the last slot |
| MemorySlots.Coalesce | kernel/src/physmem.rs:152-166 | one record panics exactly when it cannot merge into the last descriptor and the run already fills every slot; otherwise the run grows by at most one and its earlier descriptors are kept; the new last descriptor is the merge of the old last one with the record when `try_merge_with` allows, else the record itself |
| MemorySlots.LoadLeavesNoMergeableNeighbours | kernel/src/physmem.rs:152-166 | after loading, no two neighbouring descriptors could still be merged |
| MemorySlots.LoadKeepsKinds | kernel/src/physmem.rs:141-168 | loading keeps each record's kind: every address of a loaded descriptor lies in a record whose converted kind is that descriptor's kind |
| MemorySlots.LoadCoversRecords | kernel/src/physmem.rs:141-168 | loading loses no address and invents none: an address is in a loaded descriptor exactly when it is in a record's range |
| MemorySlots.LoadWellFormed | kernel/src/physmem.rs:141-168 | every loaded descriptor is well formed |
| MemorySlots.LoadAvoidsDisjointRange | kernel/src/physmem.rs:141-168 | a range that shares no address with any record loaded so far shares none with any loaded descriptor |
| MemorySlots.LoadKeepsRecordsDisjoint | kernel/src/physmem.rs:141-168 | firmware records that pairwise share no address load as descriptors that pairwise share no address, merges included |
| MemorySlots.LoadMergesAdjacentRecords | kernel/src/physmem.rs:152-156 | two adjacent available 4 KiB records load as one slot `0..0x2000` |
| MemorySlots.PlacedIntoEmptyIsPacked | kernel/src/physmem.rs:138-168 | a loaded run written into an empty map is packed |
| MemorySlots.PlacedIntoEmptyLayout | kernel/src/physmem.rs:138-168 | disjoint, well-formed loaded descriptors written into an empty map give disjoint slots covering the same addresses |
| MemorySlots.InitFromEmpty | kernel/src/physmem.rs:132-182 | from an empty map, a successful `init` leaves the slots packed and holds the kernel image region `0x400_0000..0x800_0000` as `KernelImage`; when no two firmware records share an address, no two descriptors of the new map do, and the map covers exactly the records' addresses; every address outside the kernel image window lies in a record whose converted kind is the kind of the slot holding it |
| MemoryMap.MrldMemoryMap.NewEmpty | kernel/src/physmem.rs:73-78 | 128 slots, all empty |
| MemoryMap.MrldMemoryMap.GetMut | kernel/src/physmem.rs:80-84 | the slot at `idx`; an index of 128 or more is the `assert!` panic; the map is unchanged |
| MemoryMap.MrldMemoryMap.Invalidate | kernel/src/physmem.rs:86-90 | slot `idx` becomes empty and no other slot changes; an index of 128 or more is the `assert!` panic and leaves the map unchanged |
| MemoryMap.MrldMemoryMap.IterValid | kernel/src/physmem.rs:92-95 | the loop returns exactly `LiveEntries` of the slots |
| MemoryMap.MrldMemoryMap.FindWith | kernel/src/physmem.rs:102-108 | the first live descriptor satisfying `f` (by `FindFirst` over `iter_valid`); the map is unchanged |
| MemoryMap.MrldMemoryMap.FindMutWith | kernel/src/physmem.rs:110-116 | the index of the first occupied slot satisfying `f`, found by a loop; the map is unchanged |
| MemoryMap.MrldMemoryMap.AllocateNewRegion | kernel/src/physmem.rs:118-125 | the new slots are `InsertNew` of the old ones, or the panic when all are occupied |
| MemoryMap.MrldMemoryMap.SplitCandidate | kernel/src/physmem.rs:202-224 | the new slots and result are `Carve` of the old ones |
| MemoryMap.MrldMemoryMap.AllocateAt | kernel/src/physmem.rs:186-228 | the outcome and new slots are `AllocateAtSpec` of the old slots |
| MemoryMap.MrldMemoryMap.Reserve | kernel/src/physmem.rs:197-227 | the outcome and new slots are `ReserveSpec` of the old slots |
| MemoryMap.MrldMemoryMap.Allocate | kernel/src/physmem.rs:233-273 | the outcome and new slots are `AllocateSpec` of the old slots |
| MemoryMap.MrldMemoryMap.Init | kernel/src/physmem.rs:132-182 | the outcome and new slots are `InitSpec` of the old slots |
| MemoryMap.MrldMemoryMap.LoadFirmwareMap | kernel/src/physmem.rs:132-168 | the loop leaves the slots holding `Load` of the records, placed into the first slots |
| MemoryMap.MrldMemoryMap.StoreRecord | kernel/src/physmem.rs:152-166 | one iteration: the slots and the previous-descriptor state advance as `Coalesce` says |
| MemoryMap.LoadErrPersists | kernel/src/physmem.rs:141-168 | a panic while loading a prefix of the records is the panic of the whole load |
| KernelPaging.Zeros | kernel/src/paging.rs:59-61 | `n` all-zero entries |
| KernelPaging.WriteEntry | mrld/src/paging.rs:236-239 | `set_entry` on the table at an address: only that entry of that table changes |
| KernelPaging.AllocateInRegion | kernel/src/paging.rs:33-42 | in a region below 2^52, allocation succeeds exactly when the page at the cursor ends strictly below the region's end |
| KernelPaging.AllocateTwice | kernel/src/paging.rs:33-42 | two successive allocations hand out adjacent, increasing, distinct pages |
| KernelPaging.Loop | kernel/src/paging.rs:167-171 | the zipped stepped loop changes nothing once either range is exhausted |
| KernelPaging.LinkFrame | kernel/src/paging.rs:104-134 | linking a fresh zeroed table leaves every walk unchanged, except a walk that ended in a terminal entry there now ends unmapped |
| KernelPaging.WriteFrame | mrld/src/paging.rs:236-239 | a write to an entry no walk along `x` reads leaves that walk unchanged |
| KernelPaging.LeafKeepsLinked | kernel/src/paging.rs:116-143 | writing a terminal entry keeps every table pointer leading to a table of the child role |
| KernelPaging.LeafKeepsWf | kernel/src/paging.rs:116-143 | writing a terminal entry into a tree table keeps the builder's invariant |
| KernelPaging.LinkKeepsLinked | kernel/src/paging.rs:104-134 | linking a fresh table gives it the child role and keeps the tables linked |
| KernelPaging.LinkOutcome | kernel/src/paging.rs:104-134 | linking the page at the cursor keeps the tree invariant |
| KernelPaging.DescendOutcome | kernel/src/paging.rs:104-134 | one step down keeps the tree; the entry points to a child table of the child role; an existing table costs nothing; the walks are kept as `WalksKeptBut` says |
| KernelPaging.GiBLeafOutcome | kernel/src/paging.rs:116-123 | the PDP entry maps the 1 GiB page; walks outside it are unchanged |
| KernelPaging.MiBLeafOutcome | kernel/src/paging.rs:136-143 | the PD entry maps the 2 MiB page; walks outside it are unchanged |
| KernelPaging.MapPageOutcome | kernel/src/paging.rs:90-146 | `map_page` succeeds only for aligned 1 GiB or 2 MiB pages; it then keeps the tree, maps every address of the page to the physical page, and leaves every untouched walk unchanged |
| KernelPaging.StepsBelowEnds | kernel/src/paging.rs:164-168 | every page the loop visits lies below both range ends |
| KernelPaging.StepsOfExactRanges | kernel/src/paging.rs:164-171 | when both ranges are exactly `n` pages long, the loop runs `n` times |
| KernelPaging.MapPagesCount | kernel/src/paging.rs:158-171 | `map_pages` visits exactly `cnt` pages when neither range passes 2^64, and none when one does |
| KernelPaging.DistinctSlots | kernel/src/paging.rs:167-171 | two different aligned pages less than 2^47 apart never share their table indices |
| KernelPaging.HeadNotInRest | kernel/src/paging.rs:167-171 | the first page of a run shares no page slot with the pages after it |
| KernelPaging.RunFrameCompose | kernel/src/paging.rs:167-171 | a walk untouched by the run is untouched by its first page and by the rest |
| KernelPaging.MapPagesOutcome | kernel/src/paging.rs:167-171 | the loop keeps the tree, maps every visited page, and leaves every untouched walk unchanged |
| KernelPaging.MapPagesRun | kernel/src/paging.rs:167-171 | the loop has that outcome from any state satisfying the tree invariant |
| KernelPaging.MapPagesHead | kernel/src/paging.rs:167-171 | one iteration keeps the invariant and maps its page |
| KernelPaging.RunHeadKept | kernel/src/paging.rs:167-171 | the first page's translation survives the rest of the run |
| KernelPaging.RunKeysWithin | kernel/src/paging.rs:164-171 | every page slot of a run belongs to an address the run covers |
| KernelPaging.MapPagesSpecOutcome | kernel/src/paging.rs:148-173 | `map_pages` on a tree keeps the tree, maps each of its `cnt` pages (none if a range passes 2^64), and leaves untouched walks unchanged |
| KernelInit.Zeroed | kernel/src/paging.rs:59-61 | every table address in the backing region reads as zero, every other table is unchanged |
| KernelInit.InitialTree | kernel/src/paging.rs:56-64 | after zeroing and allocating the PML4, the region holds a one-table tree rooted at its first page |
| KernelInit.MapsPageKept | kernel/src/paging.rs:66-83 | a mapped page that a later run does not touch stays mapped |
| KernelInit.IdentityKept | kernel/src/paging.rs:66-77 | the identity pages survive a run whose page slots lie outside PML4 entry 0 |
| KernelInit.TextKept | kernel/src/paging.rs:72-83 | the kernel-image pages survive a 1 GiB run that avoids their 1 GiB window |
| KernelInit.TextRunApart | kernel/src/paging.rs:72-77 | the kernel-image run lies in PML4 entry 511, so the identity map survives it |
| KernelInit.HeapRunApart | kernel/src/paging.rs:78-83 | the heap run lies in PML4 entry 511, PDP entry 320, so both earlier maps survive it |
| KernelInit.IdentityPhase | kernel/src/paging.rs:66-71 | the first `map_pages` maps the first 512 GiB one to one and keeps the tree |
| KernelInit.TextPhase | kernel/src/paging.rs:72-77 | the second maps the 64 MiB kernel image at `0xffff_ffff_8000_0000` and keeps the identity map |
| KernelInit.HeapPhase | kernel/src/paging.rs:78-83 | the third maps the heap page at `0xffff_ffd0_0000_0000` and keeps both earlier maps |
| KernelInit.ZeroedRootMapsNothing | kernel/src/paging.rs:59-64 | the freshly zeroed PML4 maps nothing, so no walk outside the three windows reaches a page |
| KernelInit.RunLeavesRest | kernel/src/paging.rs:158-172 | a run whose page slots no index outside the three windows falls in keeps every such walk unmapped |
| KernelInit.IdentityRunLeavesRest | kernel/src/paging.rs:66-71 | the identity run only writes under PML4 entry 0, so every walk outside the three windows stays unmapped |
| KernelInit.ImageRunLeavesRest | kernel/src/paging.rs:72-77 | the kernel-image run only writes under PML4 entry 511, PDP entry 510, PD entries 0 to 31, so every walk outside the three windows stays unmapped |
| KernelInit.HeapRunLeavesRest | kernel/src/paging.rs:78-83 | the heap run only writes under PML4 entry 511, PDP entry 320, so every walk outside the three windows stays unmapped |
| KernelInit.InitOutcome | kernel/src/paging.rs:44-88 | after a successful `init`, CR3 holds the region's first page; through it the three documented mappings are present, and every walk outside their windows is unmapped (`NothingElseMapped`), as kernel/src/physmem.rs:30-43 describes the new tables |
| KernelPageTable.MrldPageTable.NewEmpty | kernel/src/paging.rs:26-31 | invalid descriptor, cursor 0, CR3 not yet written |
| KernelPageTable.MrldPageTable.Allocate | kernel/src/paging.rs:33-42 | the outcome is `AllocatePage`; the cursor advances by 4 KiB exactly on success |
| KernelPageTable.MrldPageTable.NextTable | kernel/src/paging.rs:104-134 | the outcome and new state are `Descend` of the old state |
| KernelPageTable.MrldPageTable.MapPage | kernel/src/paging.rs:90-146 | the outcome and new state are `MapPageSpec` of the old state |
| KernelPageTable.MrldPageTable.MapPages | kernel/src/paging.rs:148-173 | the outcome and new state are `MapPagesSpec` of the old state |
| KernelPageTable.MrldPageTable.MapRun | kernel/src/paging.rs:159-171 | the while loop's outcome and new state are `Loop` of the old state |
| KernelPageTable.MrldPageTable.MapStep | kernel/src/paging.rs:170 | one iteration advances `Loop` by one page or stops with its panic |
| KernelPageTable.MrldPageTable.Init | kernel/src/paging.rs:44-88 | the outcome and state are `InitSpec`, CR3 holds its root, and with the kernel's bases the three mappings are in place and nothing else is mapped |
| Segment.TableBit | mrld/src/x86/segment.rs:7-11 | the table indicator is one bit |
| Segment.LevelBits | mrld/src/x86/segment.rs:13-19 | a ring number is at most 3 |
| Segment.FromU16 | mrld/src/x86/segment.rs:20-29 | succeeds exactly for 0 to 3, returning the ring with that number; any other value panics |
| Segment.FromLevelBits | mrld/src/x86/segment.rs:13-29 | `from_u16` inverts the ring numbering |
| Segment.NewSelector | mrld/src/x86/segment.rs:39-44 | the index (its low 13 bits), the table and the privilege level each read back from their own field |
| Segment.Index | mrld/src/x86/segment.rs:46-49 | an index below 8192 |
| Segment.ByteIndex | mrld/src/x86/segment.rs:51-54 | eight times the index, the selector with its low three bits cleared |
| Segment.TableIndicatorOf | mrld/src/x86/segment.rs:56-63 | `Local` exactly when bit 2 is set |
| Segment.IndexRoundTrip | mrld/src/x86/segment.rs:39-54 | any index below 8192 survives `new` unchanged, and its byte index is eight times it |
| Gdt.Truncate | mrld/src/x86/gdt.rs:8-33 | `from_bits_truncate` keeps exactly the named flag bits |
| Gdt.CodeDataDifferOnlyInE | mrld/src/x86/gdt.rs:35-52 | `CODE` and `DATA` differ in the executable bit alone |
| Gdt.NewNull | mrld/src/x86/gdt.rs:95-98 | the zero descriptor: no flags, not present, base and limit 0 |
| Gdt.NewDescriptor | mrld/src/x86/gdt.rs:73-119 | base, limit, flags and privilege level each read back unchanged from the packed descriptor |
| Gdt.KernelSelectors | mrld/src/x86/gdt.rs:163-171 | the kernel selectors are byte offsets 8 and 16, GDT entries 1 and 2 |
| Gdt.KernelDescriptors | kernel/src/start.rs:82-87 | the kernel code and data descriptors are `0x00a0_9b00_0000_ffff` and `0x00a0_9300_0000_ffff` |
| Gdt.Zeroed | mrld/src/x86/gdt.rs:207-210 | `sz` zero words, cursor 0 |
| Gdt.PushWord | mrld/src/x86/gdt.rs:220-238 | succeeds exactly when a word is free at the cursor: writes it there, advances the cursor by one, keeps the other words; otherwise panics |
| Gdt.PushPair | mrld/src/x86/gdt.rs:240-247 | succeeds exactly when two words are free: writes both, advances by two, keeps the other words; otherwise panics |
| Gdt.KernelTableBuilt | kernel/src/start.rs:89-107 | null, code, data pushed into a three-word table give the entry code's static GDT, each descriptor at its selector's index, with the table then full |
| Gdt.Limit | mrld/src/x86/gdt.rs:185-205 | below 2^16, and for 1 to 8192 words the last byte offset of the table |
| Gdt.GlobalDescriptorTable.NewZeroed | mrld/src/x86/gdt.rs:185-210 | a zeroed table of `n` words no larger than the 16-bit limit allows |
| Gdt.GlobalDescriptorTable.PushUserDesc | mrld/src/x86/gdt.rs:228-238 | the new table is `PushWord` of the old one with the descriptor; unchanged on panic |
| Gdt.GlobalDescriptorTable.PushNullDesc | mrld/src/x86/gdt.rs:220-226 | the new table is `PushWord` of the old one with 0; unchanged on panic |
| Gdt.GlobalDescriptorTable.PushSysDesc | mrld/src/x86/gdt.rs:240-247 | the new table is `PushPair` of the old one; unchanged on panic |
| Idt.IstBits | mrld/src/x86/idt.rs:146-148 | an IST index below 8 |
| Idt.TypeBits | mrld/src/x86/idt.rs:150-152 | a gate type below 16 |
| Idt.Dpl | mrld/src/x86/idt.rs:153-155 | a privilege level below 4 |
| Idt.Empty | mrld/src/x86/idt.rs:185-196 | not present; offset, selector, type, DPL and IST all zero |
| Idt.WithTargetOffset | mrld/src/x86/idt.rs:140-165 | the offset reads back whole from the three fields; no other field changes |
| Idt.WithTargetSelector | mrld/src/x86/idt.rs:166-169 | only the selector changes |
| Idt.WithType | mrld/src/x86/idt.rs:170-173 | ors the low four bits into the type; no flag is cleared and DPL and present are kept |
| Idt.WithPresent | mrld/src/x86/idt.rs:176-179 | sets the present bit; no flag is cleared and type and DPL are kept |
| Idt.WithDpl | mrld/src/x86/idt.rs:180-183 | ors the low two bits into the DPL; no flag is cleared and type and present are kept |
| Idt.FieldsOfEmpty | mrld/src/x86/idt.rs:170-196 | on an empty entry, type and DPL store their argument's low bits exactly |
| Idt.NewInterrupt | mrld/src/x86/idt.rs:198-205 | a present ring-0 interrupt gate on the kernel code selector, IST 0, targeting the handler |
| Idt.VectorNumber | mrld/src/x86/idt.rs:237-268 | every vector number is below 32 |
| Idt.VectorSlot | mrld/src/x86/idt.rs:237-320 | each vector's field in `Idt` sits at the position of its vector number |
| Idt.VectorNumberInjective | mrld/src/x86/idt.rs:237-268 | distinct vectors have distinct numbers |
| Idt.FieldVector | mrld/src/x86/idt.rs:271-320 | each named field serves the vector whose number is its position |
| Idt.ReservedGaps | mrld/src/x86/idt.rs:271-320 | the reserved fields fill exactly the positions no vector uses: 9, 15, 20, 22-27 and 31 |
| Idt.DoubleFaultDeclaredWithoutErrorCode | mrld/src/x86/idt.rs:282 | as declared, the #DF handler takes no error code although the processor pushes one |
| Idt.FixedKindsMatch | mrld/src/x86/idt.rs:271-320 | with `df` corrected, every exception's handler takes an error code exactly when one is pushed |
| Idt.IdtInit | mrld/src/x86/idt.rs:325-362 | 32 fixed and 224 user entries, none present |
| Idt.IdtLayout | mrld/src/x86/idt.rs:271-323 | 256 gates of 16 bytes fill one 4 KiB page; gates of distinct named vectors never overlap and all lie in the first 512 bytes, ahead of every user gate; each named vector's field is the gate the processor reads for it |

## Left out

- `KERNEL_HEAP_BASE` is the extern static `_kernel_heap_base` in kernel/src/mm.rs. `KERNEL_TEXT_BASE` is imported from `crate::mm` at kernel/src/paging.rs:8-11, but its definition is not part of this model. Both are parameters of `KernelPageTable.MrldPageTable.Init` and `KernelInit.InitSpec`. The outcome lemmas fix them to the virtual addresses documented at kernel/src/physmem.rs:26-28 and 37-43: `0xffff_ffff_8000_0000` for the kernel image and `0xffff_ffd0_0000_0000` for the heap.
- `KERNEL_PHYS_BASE` is `0x20_0000` in mrld/src/physmem.rs and `0x400_0000` in kernel/src/physmem.rs. kernel/src/paging.rs glob-imports both modules (lines 3 and 7), so the name it uses at line 74 is ambiguous as written. The model uses `0x400_0000` (`MemorySlots.KERNEL_PHYS_BASE`), the kernel image's physical base in the layout documented at kernel/src/physmem.rs:26-28 and 41-43 and the value of the kernel's own constant at kernel/src/physmem.rs:56.
- Firmware memory types: the conversion `MrldMemoryKind::from(d.ty)` is not part of this model. It is the parameter `classify`.
- Raw pointers (`mut_ref_from_ptr`, `ref_from_ptr`, `from_cr3`, `as_ptr`, `ptr.offset`) and the bytes of memory become values: memory is a map from page address to table, and firmware records are a sequence. Aliasing through pointers is not modelled.
- The write to CR3 is recorded in the field `cr3`. The processor's use of it is the `KernelPaging.Walk` function. `Walk` does not check canonicality: where the processor faults on a non-canonical address, `Walk` translates it like its low 48 bits.
- 4 KiB mappings are `unimplemented!` in the source. They are the fault `Unsupported4KiB`.
- Types named by the core whose definitions are not part of this model: `PhysRange` (`new`, `contains_range`, `split`, `try_get_pages`), `MrldMemoryDesc::try_merge_with`/`set_range`, `PageTableEntry::new_table_ptr`/`as_mut_table`, `PageTable::get_mut`. They are defined in `PhysRanges` and `KernelPaging` by what their callers need.
- `iter_mut_valid` is modelled only through `find_mut_with`, which returns a slot index in place of a mutable reference.
- kernel/src/paging.rs `dump`, every `Debug` impl, serial output and the `Mutex` singletons are printing or locking, and are not modelled.
- `DTEFlags`, `DescriptorTablePointer`, and the `GDT::read`/`IDT::read` instructions in mrld/src/x86/segment.rs read processor registers. They are not modelled, nor are the `SystemDescriptor`/`GdtEntry` enums and `ref_from_gdtr` in gdt.rs.
- gdt.rs builds `KERNEL_CODE_SEL`/`KERNEL_DATA_SEL` with `SegmentSelector::new(1, false, …)`, a `bool` where segment.rs expects a `TableIndicator`. The model reads `false` as `Global`.
- `SEGMENT_LIMIT_MASK_19_16` is declared but unused in gdt.rs. The limit's high bits are therefore not modelled.
- Handler kinds (`HandlerKind` and its marker types and function-pointer types) are an enum `Plain | WithErrorCode` attached to each fixed IDT field. `Idt::as_ptr`, `ptr_from_slice` and `from_ptr` are pointer casts and are not modelled.
- The physical address limit: the lemmas about walks assume table addresses below 2^52 (`PHYS_LIMIT`), the architectural maximum. The source does not check this.
- KernelPageTable.MrldPageTable.MapPage, MapPages, MapRun, NextTable, Init: after a panic, only the fault is stated, not the state. The source never returns from a panic.
- KernelInit.InitOutcome: stated for a table region aligned to 4 KiB and below 2^52, and a heap descriptor of one 1 GiB page. kernel/src/physmem.rs:10-14 and 37-39 document the heap region as one 1 GiB page and the paging region as 2 MiB-aligned; `init` does not check either.
- MemorySlots.AllocateAtOutcome: stated for requests whose end does not pass 2^64. A wrapping request either panics as an inverted range or is handled by `AllocateAtSpec` as written.
- Paging.PTFlag: the subset type keeps bits 9-62 of a flag value clear. `PTFlag::from_bits_retain` can hold such bits, but no caller in the modelled code passes them, and `Paging.Flags` returns the whole raw entry value (`u64`).
- The GDT size bound `SZ_BYTES <= 65536` is checked at compile time in the source. It is a precondition of `Gdt.GlobalDescriptorTable.NewZeroed`.

## Findings

| source | as written | input that shows it | evidently intended | confidence | as-written member | corrected member |
|---|---|---|---|---|---|---|
| mrld/src/x86/idt.rs:282 | field `df` is `IdtEntry<InterruptHandler>`, a handler without an error-code argument | vector 8, double fault: the processor always pushes an error code (zero) | `IdtEntry<InterruptHandlerErr>`, like `ts`, `np`, `ss`, `gp`, `pf` | not executed | Idt.DoubleFaultDeclaredWithoutErrorCode | Idt.FixedKindsMatch |
