// `MrldPageTable`, the kernel's page-table builder, as an object: the
// backing region and the bump cursor are its fields, and the physical memory
// the tables are written to and the CR3 register are two more fields it
// updates. Each method is proved to leave the object exactly as the
// corresponding function of kernel_paging.dfy and kernel_init.dfy says, so
// the lemmas proved there about the processor's view carry over.

module KernelPageTable {
  import opened Prelude
  import opened PhysMem
  import MemorySlots
  import Paging
  import opened KernelPaging
  import opened KernelInit

  /** A method's outcome agrees with its specification's: success together, and the same panic. */
  predicate Agrees<T>(r: Result<()>, spec: Result<T>)
  {
    r.Ok? == spec.Ok? && (r.Err? ==> r.fault == spec.fault)
  }

  class MrldPageTable {
    /** Physical backing region for the tables. */
    var desc: MemoryDesc
    /** Physical address of the next free 4 KiB page. */
    var nextPage: u64
    /** The physical memory the tables live in, written through raw pointers in the kernel. */
    var mem: Memory
    /** The PML4 address committed to CR3, once `init` has done so. */
    var cr3: Option<u64>

    /** The part of the object the specification functions act on. */
    function State(): PagingState
      reads this
    {
      PagingState(mem, nextPage)
    }

    /** `new_empty`: the invalid descriptor and a zero cursor, over the machine's memory `m`. */
    constructor NewEmpty(m: Memory)
      ensures desc == NewInvalid() && nextPage == 0
      ensures mem == m && cr3 == None
    {
      desc := NewInvalid();
      nextPage := 0;
      mem := m;
      cr3 := None;
    }

    /**
     * `allocate`: hand out the page at the cursor and advance the cursor by
     * 4 KiB; panic when the cursor plus 4 KiB reaches the end of the region.
     */
    method Allocate() returns (r: Result<u64>)
      modifies this
      ensures r == AllocatePage(old(nextPage), desc.range.end)
      ensures nextPage == if r.Ok? then Wrap(old(nextPage) + PAGE_BYTES) else old(nextPage)
      ensures desc == old(desc) && mem == old(mem) && cr3 == old(cr3)
    {
      var p := nextPage;
      if Wrap(nextPage + PAGE_BYTES) >= desc.range.end {
        return Err(PageTablesExhausted);
      }
      nextPage := Wrap(nextPage + PAGE_BYTES);
      return Ok(p);
    }

    /**
     * One level of `map_page`: the table entry `idx` of `table` points to,
     * or a newly allocated page linked there with a table pointer.
     */
    method NextTable(table: u64, idx: nat, level: Paging.PageTableLevel) returns (r: Result<u64>)
      requires idx < Paging.NUM_ENTRIES
      modifies this
      ensures var spec := Descend(old(State()), desc.range.end, table, idx, level);
              && (r.Ok? <==> spec.Ok?)
              && (r.Err? ==> r.fault == spec.fault)
              && (r.Ok? ==> State() == spec.value.0 && r.value == spec.value.1)
      ensures desc == old(desc) && cr3 == old(cr3)
    {
      var e := TableAt(mem, table)[idx];
      if IsTablePointer(level, e) {
        return Ok(Paging.Address(e));
      }
      var page := Allocate();
      if page.Err? {
        return Err(page.fault);
      }
      if page.value == 0 {
        return Err(NullTablePointer);
      }
      mem := WriteEntry(mem, table, idx, Paging.New(page.value, TABLE_FLAGS));
      return Ok(page.value);
    }

    /**
     * `map_page`: check both addresses are aligned to the page size, get or
     * create the PDP table, write a 1 GiB entry there or get or create the PD
     * table and write a 2 MiB entry there; 4 KiB pages are not implemented.
     */
    method MapPage(root: u64, vaddr: u64, paddr: u64, pagesz: Paging.PageSize) returns (r: Result<()>)
      modifies this
      ensures var spec := MapPageSpec(old(State()), desc.range.end, root, vaddr, paddr, pagesz);
              Agrees(r, spec) && (r.Ok? ==> State() == spec.value)
      ensures desc == old(desc) && cr3 == old(cr3)
    {
      var sz := Paging.Bytes(pagesz);
      if vaddr % sz != 0 || paddr % sz != 0 {
        return Err(Misaligned);
      }
      var x := Paging.Decompose(vaddr);
      var pdp := NextTable(root, x.pml4, Paging.PML4);
      if pdp.Err? {
        return Err(pdp.fault);
      }
      if pagesz == Paging.Size1GiB {
        mem := WriteEntry(mem, pdp.value, x.pdp, Paging.New(paddr, LEAF_FLAGS));
        return Ok(());
      }
      var pd := NextTable(pdp.value, x.pdp, Paging.PDP);
      if pd.Err? {
        return Err(pd.fault);
      }
      if pagesz == Paging.Size2MiB {
        mem := WriteEntry(mem, pd.value, x.pd, Paging.New(paddr, LEAF_FLAGS));
        return Ok(());
      }
      return Err(Unsupported4KiB);
    }

    /**
     * `map_pages`: at most 512 pages; the two ranges `vaddr..vaddr + size`
     * and `paddr..paddr + size`, with wrapping ends, stepped by the page size
     * and zipped, each pair handed to `map_page` in order.
     */
    method MapPages(root: u64, vaddr: u64, paddr: u64, pagesz: Paging.PageSize, cnt: nat) returns (r: Result<()>)
      modifies this
      ensures var spec := MapPagesSpec(old(State()), desc.range.end, root, vaddr, paddr, pagesz, cnt);
              Agrees(r, spec) && (r.Ok? ==> State() == spec.value)
      ensures desc == old(desc) && cr3 == old(cr3)
    {
      if cnt > 512 {
        return Err(TooManyPages);
      }
      var sz := Paging.Bytes(pagesz);
      r := MapRun(root, vaddr, paddr, Wrap(vaddr + Wrap(sz * cnt)), Wrap(paddr + Wrap(sz * cnt)), pagesz);
    }

    /** The loop of `map_pages`: `map_page` on each pair while both ranges last, stopping at the first panic. */
    method MapRun(root: u64, vaddr: u64, paddr: u64, endV: u64, endP: u64, pagesz: Paging.PageSize)
      returns (r: Result<()>)
      modifies this
      ensures var spec := Loop(old(State()), desc.range.end, root, vaddr, paddr, endV, endP, pagesz);
              Agrees(r, spec) && (r.Ok? ==> State() == spec.value)
      ensures desc == old(desc) && cr3 == old(cr3)
    {
      var sz := Paging.Bytes(pagesz);
      ghost var end := desc.range.end;
      ghost var goal := Loop(State(), end, root, vaddr, paddr, endV, endP, pagesz);
      var v: nat, p: nat := vaddr, paddr;
      while v < endV && p < endP
        invariant goal == Loop(State(), end, root, v, p, endV, endP, pagesz)
        invariant desc == old(desc) && cr3 == old(cr3)
        decreases endV - v
      {
        var step := MapStep(root, v, p, endV, endP, pagesz);
        if step.Err? {
          return Err(step.fault);
        }
        v, p := v + sz, p + sz;
      }
      return Ok(());
    }

    /** One iteration of that loop: `map_page` on the pair `v`, `p`, as the loop's specification takes it. */
    method MapStep(root: u64, v: u64, p: u64, endV: u64, endP: u64, pagesz: Paging.PageSize) returns (r: Result<()>)
      requires v < endV && p < endP
      modifies this
      ensures var sz := Paging.Bytes(pagesz);
              var rest := Loop(old(State()), desc.range.end, root, v, p, endV, endP, pagesz);
              if r.Ok? then rest == Loop(State(), desc.range.end, root, v + sz, p + sz, endV, endP, pagesz)
              else rest == Err(r.fault)
      ensures desc == old(desc) && cr3 == old(cr3)
    {
      ghost var before := State();
      assert Loop(before, desc.range.end, root, v, p, endV, endP, pagesz)
          == MapPageThenRest(before, desc.range.end, root, v, p, endV, endP, pagesz);
      r := MapPage(root, v, p, pagesz);
    }

    /**
     * `init`: take over the region of `ptDesc`, zero it, allocate the PML4,
     * map the first 512 GiB one to one, the kernel image at `textBase` and
     * the first heap page at `heapBase`, then commit the PML4 to CR3. When
     * the bases are the documented ones and the regions are as the kernel
     * reserves them, the processor then sees the three mappings through CR3,
     * and nothing else.
     */
    method Init(ptDesc: MemoryDesc, heapDesc: MemoryDesc, textBase: u64, heapBase: u64) returns (r: Result<()>)
      modifies this
      ensures var spec := InitSpec(old(mem), ptDesc, heapDesc, textBase, heapBase);
              Agrees(r, spec) && (r.Ok? ==> State() == spec.value.state && cr3 == Some(spec.value.cr3))
      ensures desc == ptDesc
      ensures r.Ok? && textBase == TEXT_BASE && heapBase == HEAP_BASE
              && ptDesc.range.start <= ptDesc.range.end <= PHYS_LIMIT && ptDesc.range.start % PAGE_BYTES == 0
              && heapDesc.range.end == heapDesc.range.start + 0x4000_0000
              ==> && cr3 == Some(ptDesc.range.start)
                  && PagesMapped(mem, cr3.value, 0, 0, Paging.Size1GiB, 512)
                  && PagesMapped(mem, cr3.value, TEXT_BASE, MemorySlots.KERNEL_PHYS_BASE, Paging.Size2MiB, 32)
                  && PagesMapped(mem, cr3.value, HEAP_BASE, heapDesc.range.start, Paging.Size1GiB, 1)
                  && NothingElseMapped(mem, cr3.value)
    {
      ghost var mem0 := mem;
      desc := ptDesc;
      nextPage := ptDesc.range.start;
      mem := Zeroed(mem, ptDesc.range.start, ptDesc.range.end);
      var pml4 := Allocate();
      if pml4.Err? {
        return Err(pml4.fault);
      }
      if pml4.value == 0 {
        return Err(NullTablePointer);
      }
      var root := pml4.value;
      var step := MapPages(root, 0, 0, Paging.Size1GiB, 512);
      if step.Err? {
        return Err(step.fault);
      }
      step := MapPages(root, textBase, MemorySlots.KERNEL_PHYS_BASE, Paging.Size2MiB, 32);
      if step.Err? {
        return Err(step.fault);
      }
      step := MapPages(root, heapBase, heapDesc.range.start, Paging.Size1GiB, 1);
      if step.Err? {
        return Err(step.fault);
      }
      cr3 := Some(root);
      if textBase == TEXT_BASE && heapBase == HEAP_BASE
         && ptDesc.range.start <= ptDesc.range.end <= PHYS_LIMIT && ptDesc.range.start % PAGE_BYTES == 0
         && heapDesc.range.end == heapDesc.range.start + 0x4000_0000 {
        InitOutcome(mem0, ptDesc, heapDesc);
      }
      return Ok(());
    }
  }
}
