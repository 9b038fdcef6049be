// The kernel's page-table builder: a bump allocator over a reserved physical
// region that hands out 4 KiB table pages, and `map_page`/`map_pages`, which
// walk from the PML4 down, link intermediate tables on demand, and write
// 1 GiB or 2 MiB terminal entries.
//
// Physical memory is a map from page address to a 512-entry table; a page
// never written reads as zero. The CR3 write is recorded as the root address.
// `Walk` is the processor's 4-level translation, the reference against which
// the builder's effect is stated.

module KernelPaging {
  import opened Prelude
  import opened PhysMem
  import MemorySlots
  import Paging

  const PAGE_BYTES: nat := 0x1000

  /** `n` invalid (all-zero) entries. */
  function Zeros(n: nat): (t: seq<Paging.PageTableEntry>)
    ensures |t| == n && forall i :: 0 <= i < n ==> Paging.Invalid(t[i])
  {
    if n == 0 then [] else Zeros(n - 1) + [Paging.PageTableEntry(0)]
  }

  type Table = t: seq<Paging.PageTableEntry> | |t| == Paging.NUM_ENTRIES
    witness Zeros(Paging.NUM_ENTRIES)

  /** A page that was zeroed or never written. */
  const ZERO_TABLE: Table := Zeros(Paging.NUM_ENTRIES)

  type Memory = map<u64, Table>

  /** The table stored at physical address `a`. */
  function TableAt(mem: Memory, a: u64): Table
  {
    if a in mem then mem[a] else ZERO_TABLE
  }

  /** `set_entry` on the table at `a`: only entry `idx` of that table changes. */
  function WriteEntry(mem: Memory, a: u64, idx: nat, e: Paging.PageTableEntry): (m: Memory)
    requires idx < Paging.NUM_ENTRIES
    ensures TableAt(m, a)[idx] == e
    ensures forall j :: 0 <= j < Paging.NUM_ENTRIES && j != idx ==> TableAt(m, a)[j] == TableAt(mem, a)[j]
    ensures forall b :: b != a ==> TableAt(m, b) == TableAt(mem, b)
    ensures forall b :: b in m <==> b in mem || b == a
  {
    mem[a := TableAt(mem, a)[idx := e]]
  }

  /** The part of the machine the builder changes: table memory and the bump cursor. */
  datatype PagingState = PagingState(mem: Memory, nextPage: u64)

  // ---------------------------------------------------------------------
  // The bump allocator

  /**
   * `allocate`: hand out `nextPage` and advance it by 4 KiB; panic when
   * `nextPage + 4096 >= end`, so the page ending exactly at `end` is never
   * handed out.
   */
  function AllocatePage(next: u64, end: u64): Result<u64>
  {
    if Wrap(next + PAGE_BYTES) >= end then Err(PageTablesExhausted) else Ok(next)
  }

  /**
   * Within a region below 2^52 the allocator succeeds exactly when the whole
   * page at the cursor ends strictly below `end`: the region's last page is
   * never handed out.
   */
  lemma AllocateInRegion(next: u64, end: u64)
    requires next <= end <= PHYS_LIMIT
    ensures AllocatePage(next, end).Ok? <==> next + PAGE_BYTES < end
    ensures AllocatePage(next, end).Ok? ==> AllocatePage(next, end).value == next
  {
  }

  /** Two successive allocations hand out adjacent, increasing, distinct pages. */
  lemma AllocateTwice(next: u64, end: u64)
    requires next <= end <= PHYS_LIMIT
    requires AllocatePage(next, end).Ok?
    ensures AllocatePage(Wrap(next + PAGE_BYTES), end).Ok? ==>
              AllocatePage(Wrap(next + PAGE_BYTES), end).value == AllocatePage(next, end).value + PAGE_BYTES
  {
  }

  // ---------------------------------------------------------------------
  // Walking and linking

  /** `as_mut_table`: the entry points to a next-level table (present and not terminal). */
  predicate IsTablePointer(level: Paging.PageTableLevel, e: Paging.PageTableEntry)
  {
    Paging.Present(e) && !Paging.Terminal(level, e)
  }

  /** Flags of `new_table_ptr`: present and writable. */
  const TABLE_FLAGS: Paging.PTFlag := Paging.P + Paging.RW
  /** Flags of a terminal entry written by `map_page`: present, writable, page size. */
  const LEAF_FLAGS: Paging.PTFlag := Paging.P + Paging.RW + Paging.PS

  /**
   * One level of `map_page`: reuse the table entry `idx` of `table` points
   * to, or allocate a page, reject it if it is null, and link it with a
   * table pointer. Returns the new state and the child table's address.
   */
  function Descend(s: PagingState, end: u64, table: u64, idx: nat, level: Paging.PageTableLevel)
    : (r: Result<(PagingState, u64)>)
    requires idx < Paging.NUM_ENTRIES
  {
    var e := TableAt(s.mem, table)[idx];
    if IsTablePointer(level, e) then Ok((s, Paging.Address(e)))
    else
      match AllocatePage(s.nextPage, end)
      case Err(f) => Err(f)
      case Ok(p) =>
        if p == 0 then Err(NullTablePointer)
        else Ok((PagingState(WriteEntry(s.mem, table, idx, Paging.New(p, TABLE_FLAGS)), Wrap(p + PAGE_BYTES)), p))
  }

  /**
   * `map_page`: both addresses must be multiples of the page size
   * (`x & (size - 1) == 0`); then get or create the PDP table, write a 1 GiB
   * entry there, or get or create the PD table and write a 2 MiB entry there;
   * 4 KiB pages are not implemented.
   */
  function MapPageSpec(s: PagingState, end: u64, root: u64, vaddr: u64, paddr: u64, pagesz: Paging.PageSize)
    : Result<PagingState>
  {
    var sz := Paging.Bytes(pagesz);
    if vaddr % sz != 0 || paddr % sz != 0 then Err(Misaligned)
    else
      var x := Paging.Decompose(vaddr);
      match Descend(s, end, root, x.pml4, Paging.PML4)
      case Err(f) => Err(f)
      case Ok((s1, pdp)) =>
        if pagesz == Paging.Size1GiB then
          Ok(s1.(mem := WriteEntry(s1.mem, pdp, x.pdp, Paging.New(paddr, LEAF_FLAGS))))
        else
          match Descend(s1, end, pdp, x.pdp, Paging.PDP)
          case Err(f) => Err(f)
          case Ok((s2, pd)) =>
            if pagesz == Paging.Size2MiB then
              Ok(s2.(mem := WriteEntry(s2.mem, pd, x.pd, Paging.New(paddr, LEAF_FLAGS))))
            else Err(Unsupported4KiB)
  }

  /**
   * The loop of `map_pages`: the two ranges `vaddr..endV` and `paddr..endP`
   * stepped by the page size and zipped, so it stops as soon as either runs
   * out.
   */
  function MapPagesFrom(s: PagingState, end: u64, root: u64, v: nat, p: nat, endV: u64, endP: u64,
                        pagesz: Paging.PageSize): Result<PagingState>
    decreases endV - v, 1, s
  {
    if !(v < endV && p < endP) then Ok(s)
    else MapPageThenRest(s, end, root, v, p, endV, endP, pagesz)
  }

  /** One iteration of that loop: `map_page`, propagating its failure, then the iterations after it. */
  function MapPageThenRest(s: PagingState, end: u64, root: u64, v: nat, p: nat, endV: u64, endP: u64,
                           pagesz: Paging.PageSize): Result<PagingState>
    requires v < endV && p < endP
    decreases endV - v, 0, s
  {
    match MapPageSpec(s, end, root, v, p, pagesz)
    case Err(f) => Err(f)
    case Ok(s') => MapPagesFrom(s', end, root, v + Paging.Bytes(pagesz), p + Paging.Bytes(pagesz), endV, endP, pagesz)
  }

  /**
   * The loop of `map_pages` from `v` and `p`, as the lemmas about it refer
   * to it: a non-recursive name for `MapPagesFrom`, so that checking a
   * lemma's precondition does not unfold the first `map_page` of the run.
   */
  function Loop(s: PagingState, end: u64, root: u64, v: nat, p: nat, endV: u64, endP: u64,
                pagesz: Paging.PageSize): (r: Result<PagingState>)
    ensures !(v < endV && p < endP) ==> r == Ok(s)
  {
    MapPagesFrom(s, end, root, v, p, endV, endP, pagesz)
  }

  /** `map_pages`: more than 512 pages fail its assertion; otherwise `cnt` pages, with the end addresses computed in wrapping u64 arithmetic. */
  function MapPagesSpec(s: PagingState, end: u64, root: u64, vaddr: u64, paddr: u64, pagesz: Paging.PageSize, cnt: nat)
    : Result<PagingState>
  {
    if cnt > 512 then Err(TooManyPages)
    else MapPagesFrom(s, end, root, vaddr, paddr, RangeEnd(vaddr, pagesz, cnt), RangeEnd(paddr, pagesz, cnt), pagesz)
  }

  /** `base + size_bytes` for `cnt` pages, in wrapping u64 arithmetic. */
  function RangeEnd(base: u64, pagesz: Paging.PageSize, cnt: nat): u64
  {
    Wrap(base + Wrap(Paging.Bytes(pagesz) * cnt))
  }

  // ---------------------------------------------------------------------
  // The processor's view

  datatype Translation = NotMapped | Leaf(size: Paging.PageSize, base: u64)

  predicate IndicesInRange(x: Paging.Indices)
  {
    x.pml4 < Paging.NUM_ENTRIES && x.pdp < Paging.NUM_ENTRIES && x.pd < Paging.NUM_ENTRIES && x.pt < Paging.NUM_ENTRIES
  }

  /** The index a table at `level` is read at. */
  function IndexAt(x: Paging.Indices, level: Paging.PageTableLevel): nat
  {
    match level
    case PML4 => x.pml4
    case PDP => x.pdp
    case PD => x.pd
    case PT => x.pt
  }

  /** Number of levels below `level`. */
  function Depth(level: Paging.PageTableLevel): nat
  {
    match level
    case PML4 => 3
    case PDP => 2
    case PD => 1
    case PT => 0
  }

  /**
   * Translation from the table at `table`, which serves `level`: a missing
   * entry ends the walk unmapped, a terminal entry maps a page of that
   * level's size, any other entry leads to the next level's table.
   */
  function WalkFrom(mem: Memory, table: u64, level: Paging.PageTableLevel, x: Paging.Indices): Translation
    requires IndicesInRange(x)
    decreases Depth(level)
  {
    var e := TableAt(mem, table)[IndexAt(x, level)];
    Paging.TerminalByLevel(e);
    if !Paging.Present(e) then NotMapped
    else if Paging.Terminal(level, e) then Leaf(Paging.TerminalSize(level).value, Paging.Address(e))
    else WalkFrom(mem, Paging.Address(e), Paging.NextLevel(level).value, x)
  }

  /**
   * 4-level translation of `v` from the PML4 at `root` (section 5.3 of the
   * AMD64 Architecture Programmer's Manual, volume 2): a PDP or PD entry with
   * the page-size bit maps a 1 GiB or 2 MiB page, a present PT entry a 4 KiB
   * page. The result is the page and its base; the offset inside the page
   * is carried over unchanged. Canonicality is not checked: where the
   * processor faults on a non-canonical address, this walk translates it
   * like its low 48 bits.
   */
  function Walk(mem: Memory, root: u64, v: u64): Translation
  {
    WalkFrom(mem, root, Paging.PML4, Paging.Decompose(v))
  }

  // ---------------------------------------------------------------------
  // The shape the builder maintains

  /** Which level a table page serves, and the indices that lead to it. */
  datatype Role = Pml4 | Pdp(i4: nat) | Pd(i4: nat, i3: nat) | Pt(i4: nat, i3: nat, i2: nat)

  /** The role of the table an entry of a table with role `r` at index `i` points to. */
  function ChildRole(r: Role, i: nat): Role
  {
    match r
    case Pml4 => Pdp(i)
    case Pdp(i4) => Pd(i4, i)
    case Pd(i4, i3) => Pt(i4, i3, i)
    case Pt(i4, i3, i2) => Pt(i4, i3, i2)
  }

  function LevelOf(r: Role): Paging.PageTableLevel
  {
    match r
    case Pml4 => Paging.PML4
    case Pdp(_) => Paging.PDP
    case Pd(_, _) => Paging.PD
    case Pt(_, _, _) => Paging.PT
  }

  /** Highest physical address (exclusive) the model's table region may reach: 52 address bits. */
  const PHYS_LIMIT: nat := 0x10_0000_0000_0000

  /** Every table pointer in a table with a role leads to a table with the child role. */
  ghost predicate Linked(mem: Memory, roles: map<u64, Role>)
  {
    forall a, i ::
      (a in roles && !roles[a].Pt? && 0 <= i < Paging.NUM_ENTRIES &&
       IsTablePointer(LevelOf(roles[a]), TableAt(mem, a)[i])) ==>
        Paging.Address(TableAt(mem, a)[i]) in roles &&
        roles[Paging.Address(TableAt(mem, a)[i])] == ChildRole(roles[a], i)
  }

  /** The tables reachable from `root` form a tree whose shape the roles describe. */
  ghost predicate Tree(mem: Memory, root: u64, roles: map<u64, Role>)
  {
    root in roles && roles[root] == Pml4 && Linked(mem, roles)
  }

  /**
   * The builder's invariant over a region `start..end`: the tables with a
   * role lie in the part already handed out, at 4 KiB boundaries; nothing
   * has been written at or above the cursor; and the tables form a tree.
   */
  ghost predicate Wf(s: PagingState, start: u64, end: u64, root: u64, roles: map<u64, Role>)
  {
    && start % PAGE_BYTES == 0 && s.nextPage % PAGE_BYTES == 0
    && start <= s.nextPage <= end <= PHYS_LIMIT
    && (forall a :: a in roles ==> start <= a < s.nextPage && a % PAGE_BYTES == 0)
    && (forall a :: a in s.mem ==> a < s.nextPage || a >= end)
    && Tree(s.mem, root, roles)
  }

  /** The walk along `x` passes through tables with role `r`. */
  predicate OnPath(r: Role, x: Paging.Indices)
  {
    match r
    case Pml4 => true
    case Pdp(i4) => x.pml4 == i4
    case Pd(i4, i3) => x.pml4 == i4 && x.pdp == i3
    case Pt(i4, i3, i2) => x.pml4 == i4 && x.pdp == i3 && x.pd == i2
  }

  /** The walk along `x` reads entry `i` of tables with role `r`. */
  predicate ReadsEntry(r: Role, i: nat, x: Paging.Indices)
  {
    OnPath(r, x) && IndexAt(x, LevelOf(r)) == i
  }

  lemma ChildOnPath(r: Role, x: Paging.Indices)
    requires OnPath(r, x) && !r.Pt?
    ensures OnPath(ChildRole(r, IndexAt(x, LevelOf(r))), x)
    ensures LevelOf(ChildRole(r, IndexAt(x, LevelOf(r)))) == Paging.NextLevel(LevelOf(r)).value
  {
  }

  /** A write to an entry no walk along `x` reads leaves that walk unchanged. */
  lemma {:induction false} WriteFrame(mem: Memory, roles: map<u64, Role>, table: u64, x: Paging.Indices,
                                      a: u64, i: nat, e: Paging.PageTableEntry)
    requires IndicesInRange(x) && i < Paging.NUM_ENTRIES && Linked(mem, roles)
    requires table in roles && OnPath(roles[table], x)
    requires a in roles && !ReadsEntry(roles[a], i, x)
    ensures WalkFrom(WriteEntry(mem, a, i, e), table, LevelOf(roles[table]), x)
         == WalkFrom(mem, table, LevelOf(roles[table]), x)
    decreases Depth(LevelOf(roles[table]))
  {
    var level := LevelOf(roles[table]);
    var ent := TableAt(mem, table)[IndexAt(x, level)];
    assert TableAt(WriteEntry(mem, a, i, e), table)[IndexAt(x, level)] == ent;
    Paging.TerminalByLevel(ent);
    if Paging.Present(ent) && !Paging.Terminal(level, ent) {
      ChildOnPath(roles[table], x);
      WriteFrame(mem, roles, Paging.Address(ent), x, a, i, e);
    }
  }

  /**
   * Linking a fresh, zeroed table into an entry that was not a table pointer
   * leaves every walk as it was, except that a walk that ended in a
   * terminal entry there now ends unmapped.
   */
  lemma {:induction false} LinkFrame(mem: Memory, roles: map<u64, Role>, table: u64, x: Paging.Indices,
                                     a: u64, i: nat, p: u64)
    requires IndicesInRange(x) && i < Paging.NUM_ENTRIES && Linked(mem, roles)
    requires table in roles && OnPath(roles[table], x)
    requires a in roles && !roles[a].Pt? && !IsTablePointer(LevelOf(roles[a]), TableAt(mem, a)[i])
    requires p !in roles && TableAt(mem, p) == ZERO_TABLE && p % PAGE_BYTES == 0 && p < PHYS_LIMIT
    ensures var w := WalkFrom(mem, table, LevelOf(roles[table]), x);
            var w' := WalkFrom(WriteEntry(mem, a, i, Paging.New(p, TABLE_FLAGS)), table, LevelOf(roles[table]), x);
            w' == w ||
            (w' == NotMapped && ReadsEntry(roles[a], i, x) && w.Leaf? &&
             Some(w.size) == Paging.TerminalSize(LevelOf(roles[a])))
    decreases Depth(LevelOf(roles[table]))
  {
    var mem' := WriteEntry(mem, a, i, Paging.New(p, TABLE_FLAGS));
    var level := LevelOf(roles[table]);
    var idx := IndexAt(x, level);
    var ent := TableAt(mem, table)[idx];
    Paging.TerminalByLevel(ent);
    if table == a && idx == i {
      var link := Paging.New(p, TABLE_FLAGS);
      Paging.TablePointerEntry(p);
      Paging.TerminalByLevel(link);
      ChildOnPath(roles[table], x);
      var next := Paging.NextLevel(level).value;
      assert TableAt(mem', p)[IndexAt(x, next)] == Paging.PageTableEntry(0);
      assert WalkFrom(mem', p, next, x) == NotMapped;
    } else {
      assert TableAt(mem', table)[idx] == ent;
      if Paging.Present(ent) && !Paging.Terminal(level, ent) {
        ChildOnPath(roles[table], x);
        LinkFrame(mem, roles, Paging.Address(ent), x, a, i, p);
      }
    }
  }

  /** Writing an entry that is not a table pointer keeps the tables linked. */
  lemma LeafKeepsLinked(mem: Memory, roles: map<u64, Role>, a: u64, i: nat, e: Paging.PageTableEntry)
    requires Linked(mem, roles) && a in roles && i < Paging.NUM_ENTRIES
    requires !IsTablePointer(LevelOf(roles[a]), e)
    ensures Linked(WriteEntry(mem, a, i, e), roles)
  {
    var mem' := WriteEntry(mem, a, i, e);
    forall b, j | b in roles && !roles[b].Pt? && 0 <= j < Paging.NUM_ENTRIES &&
                  IsTablePointer(LevelOf(roles[b]), TableAt(mem', b)[j])
      ensures Paging.Address(TableAt(mem', b)[j]) in roles &&
              roles[Paging.Address(TableAt(mem', b)[j])] == ChildRole(roles[b], j)
    {
      assert TableAt(mem', b)[j] == TableAt(mem, b)[j];
    }
  }

  /** Writing an entry that is not a table pointer into a table with a role keeps the invariant. */
  lemma LeafKeepsWf(s: PagingState, start: u64, end: u64, root: u64, roles: map<u64, Role>,
                    a: u64, i: nat, e: Paging.PageTableEntry)
    requires Wf(s, start, end, root, roles) && a in roles && i < Paging.NUM_ENTRIES
    requires !IsTablePointer(LevelOf(roles[a]), e)
    ensures Wf(s.(mem := WriteEntry(s.mem, a, i, e)), start, end, root, roles)
  {
    LeafKeepsLinked(s.mem, roles, a, i, e);
  }

  /** Linking a fresh, zeroed table gives it the child role and keeps the tables linked. */
  lemma LinkKeepsLinked(mem: Memory, roles: map<u64, Role>, a: u64, i: nat, p: u64)
    requires Linked(mem, roles) && a in roles && !roles[a].Pt? && i < Paging.NUM_ENTRIES
    requires p !in roles && TableAt(mem, p) == ZERO_TABLE && p % PAGE_BYTES == 0 && p < PHYS_LIMIT
    ensures Linked(WriteEntry(mem, a, i, Paging.New(p, TABLE_FLAGS)), roles[p := ChildRole(roles[a], i)])
  {
    var mem' := WriteEntry(mem, a, i, Paging.New(p, TABLE_FLAGS));
    var roles' := roles[p := ChildRole(roles[a], i)];
    Paging.TablePointerEntry(p);
    forall b, j | b in roles' && !roles'[b].Pt? && 0 <= j < Paging.NUM_ENTRIES &&
                  IsTablePointer(LevelOf(roles'[b]), TableAt(mem', b)[j])
      ensures Paging.Address(TableAt(mem', b)[j]) in roles' &&
              roles'[Paging.Address(TableAt(mem', b)[j])] == ChildRole(roles'[b], j)
    {
      if b != p && (b != a || j != i) {
        assert TableAt(mem', b)[j] == TableAt(mem, b)[j];
      }
    }
  }

  /**
   * Every walk from `root` is the same in `m'` as in `m`, except that one
   * that read entry `idx` of a table with role `r` and ended there in a
   * terminal entry now ends unmapped.
   */
  ghost predicate WalksKeptBut(m: Memory, m': Memory, root: u64, r: Role, idx: nat)
  {
    forall x :: IndicesInRange(x) ==>
      var w := WalkFrom(m, root, Paging.PML4, x);
      var w' := WalkFrom(m', root, Paging.PML4, x);
      w' == w ||
      (w' == NotMapped && ReadsEntry(r, idx, x) && w.Leaf? && Some(w.size) == Paging.TerminalSize(LevelOf(r)))
  }

  /** Linking the page at the cursor under entry `idx` of `table` keeps the invariant. */
  lemma LinkOutcome(s: PagingState, start: u64, end: u64, root: u64, roles: map<u64, Role>,
                    table: u64, idx: nat)
    requires Wf(s, start, end, root, roles) && idx < Paging.NUM_ENTRIES
    requires table in roles && !roles[table].Pt?
    requires !IsTablePointer(LevelOf(roles[table]), TableAt(s.mem, table)[idx])
    requires s.nextPage + PAGE_BYTES < end
    ensures var p := s.nextPage;
            var mem' := WriteEntry(s.mem, table, idx, Paging.New(p, TABLE_FLAGS));
            && Wf(PagingState(mem', p + PAGE_BYTES), start, end, root, roles[p := ChildRole(roles[table], idx)])
            && WalksKeptBut(s.mem, mem', root, roles[table], idx)
  {
    var p := s.nextPage;
    var mem' := WriteEntry(s.mem, table, idx, Paging.New(p, TABLE_FLAGS));
    assert p !in s.mem;
    LinkKeepsLinked(s.mem, roles, table, idx, p);
    forall x | IndicesInRange(x)
      ensures var w := WalkFrom(s.mem, root, Paging.PML4, x);
              var w' := WalkFrom(mem', root, Paging.PML4, x);
              w' == w ||
              (w' == NotMapped && ReadsEntry(roles[table], idx, x) && w.Leaf? &&
               Some(w.size) == Paging.TerminalSize(LevelOf(roles[table])))
    {
      LinkFrame(s.mem, roles, root, x, table, idx, p);
    }
  }

  /**
   * One step down: the tree is kept, the child table has the child role
   * and the entry points to it, a table that already exists costs nothing,
   * and the walks are kept as `WalksKeptBut` says.
   */
  lemma DescendOutcome(s: PagingState, start: u64, end: u64, root: u64, roles: map<u64, Role>,
                       table: u64, idx: nat) returns (s': PagingState, c: u64, roles': map<u64, Role>)
    requires Wf(s, start, end, root, roles) && idx < Paging.NUM_ENTRIES
    requires table in roles && !roles[table].Pt?
    requires Descend(s, end, table, idx, LevelOf(roles[table])).Ok?
    ensures Descend(s, end, table, idx, LevelOf(roles[table])) == Ok((s', c))
    ensures Wf(s', start, end, root, roles')
    ensures forall b :: b in roles ==> b in roles' && roles'[b] == roles[b]
    ensures c in roles' && roles'[c] == ChildRole(roles[table], idx)
    ensures IsTablePointer(LevelOf(roles[table]), TableAt(s'.mem, table)[idx])
    ensures Paging.Address(TableAt(s'.mem, table)[idx]) == c
    ensures IsTablePointer(LevelOf(roles[table]), TableAt(s.mem, table)[idx]) ==> s' == s
    ensures WalksKeptBut(s.mem, s'.mem, root, roles[table], idx)
  {
    var level := LevelOf(roles[table]);
    var e := TableAt(s.mem, table)[idx];
    if IsTablePointer(level, e) {
      s', c, roles' := s, Paging.Address(e), roles;
    } else {
      c := s.nextPage;
      s' := PagingState(WriteEntry(s.mem, table, idx, Paging.New(c, TABLE_FLAGS)), c + PAGE_BYTES);
      roles' := roles[c := ChildRole(roles[table], idx)];
      LinkOutcome(s, start, end, root, roles, table, idx);
      Paging.TablePointerEntry(c);
      Paging.TerminalByLevel(Paging.New(c, TABLE_FLAGS));
    }
  }

  /** Indices `x` fall in the same `pagesz` page as `y`: equal above that page's offset. */
  predicate SameSlot(pagesz: Paging.PageSize, x: Paging.Indices, y: Paging.Indices)
  {
    x.pml4 == y.pml4 && x.pdp == y.pdp &&
    (pagesz == Paging.Size1GiB || (x.pd == y.pd && (pagesz == Paging.Size2MiB || x.pt == y.pt)))
  }

  /**
   * A walk along `x` that mapping a `pagesz` page at `y` does not disturb:
   * outside that page, and, for a 2 MiB page, not a 1 GiB page that covered
   * it (its entry is replaced by a new, empty table).
   */
  predicate Untouched(pagesz: Paging.PageSize, x: Paging.Indices, y: Paging.Indices, w: Translation)
  {
    !SameSlot(pagesz, x, y) &&
    (pagesz == Paging.Size1GiB || !SameSlot(Paging.Size1GiB, x, y) || !(w.Leaf? && w.size == Paging.Size1GiB))
  }

  /** The PDP table `pdp` is the one entry `x.pml4` of the root points to. */
  ghost predicate PdpReached(mem: Memory, root: u64, roles: map<u64, Role>, pdp: u64, x: Paging.Indices)
    requires IndicesInRange(x)
  {
    && Tree(mem, root, roles) && pdp in roles && roles[pdp] == Pdp(x.pml4)
    && IsTablePointer(Paging.PML4, TableAt(mem, root)[x.pml4])
    && Paging.Address(TableAt(mem, root)[x.pml4]) == pdp
  }

  /** The final step of `map_page` for a 1 GiB page: the PDP entry becomes the terminal entry. */
  lemma GiBLeafOutcome(s: PagingState, start: u64, end: u64, root: u64, roles: map<u64, Role>,
                       pdp: u64, v: Paging.Indices, paddr: u64)
    requires Wf(s, start, end, root, roles)
    requires IndicesInRange(v) && PdpReached(s.mem, root, roles, pdp, v)
    ensures var mem := s.mem;
            var mem' := WriteEntry(mem, pdp, v.pdp, Paging.New(paddr, LEAF_FLAGS));
            && Wf(s.(mem := mem'), start, end, root, roles)
            && (forall x :: IndicesInRange(x) && SameSlot(Paging.Size1GiB, x, v) ==>
                  WalkFrom(mem', root, Paging.PML4, x) == Leaf(Paging.Size1GiB, Paging.AddressBits(paddr)))
            && (forall x :: IndicesInRange(x) && !SameSlot(Paging.Size1GiB, x, v) ==>
                  WalkFrom(mem', root, Paging.PML4, x) == WalkFrom(mem, root, Paging.PML4, x))
  {
    var mem := s.mem;
    var leaf := Paging.New(paddr, LEAF_FLAGS);
    var mem' := WriteEntry(mem, pdp, v.pdp, leaf);
    Paging.LeafEntry(paddr);
    Paging.TerminalByLevel(leaf);
    LeafKeepsWf(s, start, end, root, roles, pdp, v.pdp, leaf);
    forall x | IndicesInRange(x) && SameSlot(Paging.Size1GiB, x, v)
      ensures WalkFrom(mem', root, Paging.PML4, x) == Leaf(Paging.Size1GiB, Paging.AddressBits(paddr))
    {
      assert TableAt(mem', root)[x.pml4] == TableAt(mem, root)[v.pml4];
      assert WalkFrom(mem', pdp, Paging.PDP, x) == Leaf(Paging.Size1GiB, Paging.AddressBits(paddr));
    }
    forall x | IndicesInRange(x) && !SameSlot(Paging.Size1GiB, x, v)
      ensures WalkFrom(mem', root, Paging.PML4, x) == WalkFrom(mem, root, Paging.PML4, x)
    {
      WriteFrame(mem, roles, root, x, pdp, v.pdp, leaf);
    }
  }

  /** The final step of `map_page` for a 2 MiB page: the PD entry becomes the terminal entry. */
  lemma MiBLeafOutcome(s: PagingState, start: u64, end: u64, root: u64, roles: map<u64, Role>,
                       pdp: u64, pd: u64, v: Paging.Indices, paddr: u64)
    requires Wf(s, start, end, root, roles)
    requires IndicesInRange(v) && PdpReached(s.mem, root, roles, pdp, v)
    requires pd in roles && roles[pd] == Pd(v.pml4, v.pdp)
    requires IsTablePointer(Paging.PDP, TableAt(s.mem, pdp)[v.pdp]) && Paging.Address(TableAt(s.mem, pdp)[v.pdp]) == pd
    ensures var mem := s.mem;
            var mem' := WriteEntry(mem, pd, v.pd, Paging.New(paddr, LEAF_FLAGS));
            && Wf(s.(mem := mem'), start, end, root, roles)
            && (forall x :: IndicesInRange(x) && SameSlot(Paging.Size2MiB, x, v) ==>
                  WalkFrom(mem', root, Paging.PML4, x) == Leaf(Paging.Size2MiB, Paging.AddressBits(paddr)))
            && (forall x :: IndicesInRange(x) && !SameSlot(Paging.Size2MiB, x, v) ==>
                  WalkFrom(mem', root, Paging.PML4, x) == WalkFrom(mem, root, Paging.PML4, x))
  {
    var mem := s.mem;
    var leaf := Paging.New(paddr, LEAF_FLAGS);
    var mem' := WriteEntry(mem, pd, v.pd, leaf);
    Paging.LeafEntry(paddr);
    Paging.TerminalByLevel(leaf);
    LeafKeepsWf(s, start, end, root, roles, pd, v.pd, leaf);
    forall x | IndicesInRange(x) && SameSlot(Paging.Size2MiB, x, v)
      ensures WalkFrom(mem', root, Paging.PML4, x) == Leaf(Paging.Size2MiB, Paging.AddressBits(paddr))
    {
      assert TableAt(mem', root)[x.pml4] == TableAt(mem, root)[v.pml4];
      assert TableAt(mem', pdp)[x.pdp] == TableAt(mem, pdp)[v.pdp];
      assert WalkFrom(mem', pd, Paging.PD, x) == Leaf(Paging.Size2MiB, Paging.AddressBits(paddr));
      assert WalkFrom(mem', pdp, Paging.PDP, x) == Leaf(Paging.Size2MiB, Paging.AddressBits(paddr));
    }
    forall x | IndicesInRange(x) && !SameSlot(Paging.Size2MiB, x, v)
      ensures WalkFrom(mem', root, Paging.PML4, x) == WalkFrom(mem, root, Paging.PML4, x)
    {
      WriteFrame(mem, roles, root, x, pd, v.pd, leaf);
    }
  }

  /**
   * What `map_page` guarantees when it succeeds, over the state before and
   * after: the tree is kept, every address in the page at `vaddr`
   * translates to `paddr`'s page, and every walk it does not touch is
   * unchanged.
   */
  ghost predicate MapPagePost(s: PagingState, s': PagingState, start: u64, end: u64, root: u64,
                              roles': map<u64, Role>, vaddr: u64, paddr: u64, pagesz: Paging.PageSize)
  {
    && Wf(s', start, end, root, roles')
    && (forall x :: IndicesInRange(x) && SameSlot(pagesz, x, Paging.Decompose(vaddr)) ==>
          WalkFrom(s'.mem, root, Paging.PML4, x) == Leaf(pagesz, Paging.AddressBits(paddr)))
    && (forall x :: IndicesInRange(x) &&
                    Untouched(pagesz, x, Paging.Decompose(vaddr), WalkFrom(s.mem, root, Paging.PML4, x)) ==>
          WalkFrom(s'.mem, root, Paging.PML4, x) == WalkFrom(s.mem, root, Paging.PML4, x))
  }

  lemma MapGiBOutcome(s: PagingState, start: u64, end: u64, root: u64, roles: map<u64, Role>,
                      vaddr: u64, paddr: u64) returns (roles': map<u64, Role>)
    requires Wf(s, start, end, root, roles)
    requires MapPageSpec(s, end, root, vaddr, paddr, Paging.Size1GiB).Ok?
    ensures MapPagePost(s, MapPageSpec(s, end, root, vaddr, paddr, Paging.Size1GiB).value,
                        start, end, root, roles', vaddr, paddr, Paging.Size1GiB)
  {
    var v := Paging.Decompose(vaddr);
    var s1, pdp, roles1 := DescendOutcome(s, start, end, root, roles, root, v.pml4);
    RootDescendKeepsWalks(s.mem, s1.mem, root, v.pml4);
    GiBLeafOutcome(s1, start, end, root, roles1, pdp, v, paddr);
    roles' := roles1;
  }

  lemma MapMiBOutcome(s: PagingState, start: u64, end: u64, root: u64, roles: map<u64, Role>,
                      vaddr: u64, paddr: u64) returns (roles': map<u64, Role>)
    requires Wf(s, start, end, root, roles)
    requires MapPageSpec(s, end, root, vaddr, paddr, Paging.Size2MiB).Ok?
    ensures MapPagePost(s, MapPageSpec(s, end, root, vaddr, paddr, Paging.Size2MiB).value,
                        start, end, root, roles', vaddr, paddr, Paging.Size2MiB)
  {
    var v := Paging.Decompose(vaddr);
    MiBSteps(s, end, root, vaddr, paddr);
    var s1, pdp, roles1 := DescendOutcome(s, start, end, root, roles, root, v.pml4);
    roles' := MiBBelowRoot(s, s1, start, end, root, roles1, pdp, vaddr, v, paddr);
  }

  /** A 2 MiB `map_page` once the PDP table is reached: the second descent and the write into the PD table. */
  lemma MiBBelowRoot(s: PagingState, s1: PagingState, start: u64, end: u64, root: u64, roles1: map<u64, Role>,
                     pdp: u64, vaddr: u64, v: Paging.Indices, paddr: u64) returns (roles': map<u64, Role>)
    requires v == Paging.Decompose(vaddr) && Wf(s1, start, end, root, roles1)
    requires pdp in roles1 && roles1[pdp] == Pdp(v.pml4)
    requires IsTablePointer(Paging.PML4, TableAt(s1.mem, root)[v.pml4]) && Paging.Address(TableAt(s1.mem, root)[v.pml4]) == pdp
    requires WalksKeptBut(s.mem, s1.mem, root, Pml4, v.pml4)
    requires Descend(s1, end, pdp, v.pdp, Paging.PDP).Ok?
    ensures var (s2, pd) := Descend(s1, end, pdp, v.pdp, Paging.PDP).value;
            MapPagePost(s, s2.(mem := WriteEntry(s2.mem, pd, v.pd, Paging.New(paddr, LEAF_FLAGS))),
                        start, end, root, roles', vaddr, paddr, Paging.Size2MiB)
  {
    var s2, pd, roles2 := DescendOutcome(s1, start, end, root, roles1, pdp, v.pdp);
    roles' := roles2;
    var s' := PagingState(WriteEntry(s2.mem, pd, v.pd, Paging.New(paddr, LEAF_FLAGS)), s2.nextPage);
    MiBLeafOutcome(s2, start, end, root, roles', pdp, pd, v, paddr);
    MiBWalks(s.mem, s1.mem, s2.mem, s'.mem, root, v);
  }

  /** Descending from the root never changes a walk: a PML4 entry is never terminal. */
  lemma RootDescendKeepsWalks(m0: Memory, m1: Memory, root: u64, i: nat)
    requires WalksKeptBut(m0, m1, root, Pml4, i)
    ensures forall x :: IndicesInRange(x) ==> WalkFrom(m1, root, Paging.PML4, x) == WalkFrom(m0, root, Paging.PML4, x)
  {
  }

  /** A successful 2 MiB `map_page` is two successful descents and a write into the PD table. */
  lemma MiBSteps(s: PagingState, end: u64, root: u64, vaddr: u64, paddr: u64)
    requires MapPageSpec(s, end, root, vaddr, paddr, Paging.Size2MiB).Ok?
    ensures var v := Paging.Decompose(vaddr);
            && Descend(s, end, root, v.pml4, Paging.PML4).Ok?
            && var s1 := Descend(s, end, root, v.pml4, Paging.PML4).value.0;
               var pdp := Descend(s, end, root, v.pml4, Paging.PML4).value.1;
               && Descend(s1, end, pdp, v.pdp, Paging.PDP).Ok?
               && var s2 := Descend(s1, end, pdp, v.pdp, Paging.PDP).value.0;
                  var pd := Descend(s1, end, pdp, v.pdp, Paging.PDP).value.1;
                  MapPageSpec(s, end, root, vaddr, paddr, Paging.Size2MiB).value ==
                    PagingState(WriteEntry(s2.mem, pd, v.pd, Paging.New(paddr, LEAF_FLAGS)), s2.nextPage)
  {
  }

  /** The walks of a 2 MiB `map_page`, composed from its three steps. */
  lemma MiBWalks(m0: Memory, m1: Memory, m2: Memory, m3: Memory, root: u64, v: Paging.Indices)
    requires IndicesInRange(v)
    requires WalksKeptBut(m0, m1, root, Pml4, v.pml4)
    requires WalksKeptBut(m1, m2, root, Pdp(v.pml4), v.pdp)
    requires forall x :: IndicesInRange(x) && !SameSlot(Paging.Size2MiB, x, v) ==>
               WalkFrom(m3, root, Paging.PML4, x) == WalkFrom(m2, root, Paging.PML4, x)
    ensures forall x :: IndicesInRange(x) && Untouched(Paging.Size2MiB, x, v, WalkFrom(m0, root, Paging.PML4, x)) ==>
              WalkFrom(m3, root, Paging.PML4, x) == WalkFrom(m0, root, Paging.PML4, x)
  {
  }

  /**
   * `map_page` succeeds only for aligned 1 GiB or 2 MiB pages, and then
   * establishes `MapPagePost`.
   */
  lemma MapPageOutcome(s: PagingState, start: u64, end: u64, root: u64, roles: map<u64, Role>,
                       vaddr: u64, paddr: u64, pagesz: Paging.PageSize) returns (roles': map<u64, Role>)
    requires Wf(s, start, end, root, roles)
    requires MapPageSpec(s, end, root, vaddr, paddr, pagesz).Ok?
    ensures pagesz != Paging.Size4KiB && vaddr % Paging.Bytes(pagesz) == 0 && paddr % Paging.Bytes(pagesz) == 0
    ensures MapPagePost(s, MapPageSpec(s, end, root, vaddr, paddr, pagesz).value, start, end, root, roles', vaddr, paddr, pagesz)
  {
    if pagesz == Paging.Size1GiB {
      roles' := MapGiBOutcome(s, start, end, root, roles, vaddr, paddr);
    } else {
      roles' := MapMiBOutcome(s, start, end, root, roles, vaddr, paddr);
    }
  }

  // ---------------------------------------------------------------------
  // Runs of pages

  /** Address of the `k`-th page of a run of `sz`-byte pages from `base`. */
  function PageAt(base: int, k: int, sz: int): int
  {
    base + k * sz
  }

  lemma PageAtShift(base: int, k: int, sz: int)
    ensures PageAt(base + sz, k, sz) == PageAt(base, k + 1, sz)
    ensures PageAt(base, 0, sz) == base
  {
  }

  /** How many pages the zipped ranges of `map_pages` yield from `v` and `p`. */
  function Steps(v: nat, p: nat, endV: u64, endP: u64, sz: nat): nat
    requires sz > 0
    decreases endV - v
  {
    if v < endV && p < endP then 1 + Steps(v + sz, p + sz, endV, endP, sz) else 0
  }

  /** Every page the loop visits lies below both ends. */
  lemma {:induction false} StepsBelowEnds(v: nat, p: nat, endV: u64, endP: u64, sz: nat, k: nat)
    requires sz > 0 && k < Steps(v, p, endV, endP, sz)
    ensures PageAt(v, k, sz) < endV && PageAt(p, k, sz) < endP
    decreases k
  {
    if k > 0 {
      StepsBelowEnds(v + sz, p + sz, endV, endP, sz, k - 1);
      PageAtShift(v, k - 1, sz);
      PageAtShift(p, k - 1, sz);
    }
  }

  /** When both ranges are exactly `n` pages long the loop runs `n` times. */
  lemma {:induction false} StepsOfExactRanges(v: nat, p: nat, n: nat, sz: nat)
    requires sz > 0 && v + n * sz < U64_LIMIT && p + n * sz < U64_LIMIT
    ensures Steps(v, p, v + n * sz, p + n * sz, sz) == n
    decreases n
  {
    if n > 0 {
      assert v + n * sz == (v + sz) + (n - 1) * sz;
      assert p + n * sz == (p + sz) + (n - 1) * sz;
      StepsOfExactRanges(v + sz, p + sz, n - 1, sz);
    }
  }

  /**
   * `map_pages` visits exactly `cnt` pages when neither range wraps past
   * 2^64, and none at all when one does: the wrapped end lies below the start.
   */
  lemma MapPagesCount(vaddr: u64, paddr: u64, pagesz: Paging.PageSize, cnt: nat)
    requires cnt <= 512
    ensures Steps(vaddr, paddr, RangeEnd(vaddr, pagesz, cnt), RangeEnd(paddr, pagesz, cnt), Paging.Bytes(pagesz)) ==
              MappedCount(vaddr, paddr, pagesz, cnt)
  {
    var sz := Paging.Bytes(pagesz);
    var n := sz * cnt;
    assert n <= 0x4000_0000 * 512;
    assert Wrap(n) == n;
    if vaddr + n < U64_LIMIT && paddr + n < U64_LIMIT {
      assert RangeEnd(vaddr, pagesz, cnt) == vaddr + n;
      assert RangeEnd(paddr, pagesz, cnt) == paddr + n;
      StepsOfExactRanges(vaddr, paddr, cnt, sz);
    } else if vaddr + n >= U64_LIMIT {
      WrapOnce(vaddr + n);
    } else {
      WrapOnce(paddr + n);
    }
  }

  /** A sum that passes 2^64 once wraps to `2^64` below itself. */
  lemma WrapOnce(x: int)
    requires U64_LIMIT <= x < 2 * U64_LIMIT
    ensures Wrap(x) == x - U64_LIMIT
  {
    DivModUnique(x, 1, x - U64_LIMIT, U64_LIMIT);
  }

  /** How many pages `map_pages` maps: all `cnt` unless one of the two ranges runs past 2^64. */
  function MappedCount(vaddr: u64, paddr: u64, pagesz: Paging.PageSize, cnt: nat): nat
  {
    if vaddr + Paging.Bytes(pagesz) * cnt < U64_LIMIT && paddr + Paging.Bytes(pagesz) * cnt < U64_LIMIT then cnt else 0
  }

  /** The low 48 bits of an address, rebuilt from its indices and page offset. */
  lemma LowBits(a: u64)
    ensures var x := Paging.Decompose(a);
            a % Paging.SEXT_BASE == x.pml4 * 0x80_0000_0000 + x.pdp * 0x4000_0000 + x.pd * 0x20_0000 + x.pt * 0x1000 + a % 0x1000
  {
    Paging.DecomposeReassembles(a);
  }

  /** Within the same 1 GiB or 2 MiB page, the low 48 bits differ by less than the page size. */
  lemma SameSlotClose(a: u64, b: u64, pagesz: Paging.PageSize)
    requires pagesz != Paging.Size4KiB && SameSlot(pagesz, Paging.Decompose(a), Paging.Decompose(b))
    ensures a % Paging.SEXT_BASE - b % Paging.SEXT_BASE < Paging.Bytes(pagesz)
    ensures b % Paging.SEXT_BASE - a % Paging.SEXT_BASE < Paging.Bytes(pagesz)
  {
    LowBits(a);
    LowBits(b);
    var x, y := Paging.Decompose(a), Paging.Decompose(b);
    var lowA := x.pt * 0x1000 + a % 0x1000;
    var lowB := y.pt * 0x1000 + b % 0x1000;
    assert 0 <= lowA < 0x20_0000 && 0 <= lowB < 0x20_0000;
    if pagesz == Paging.Size1GiB {
      assert 0 <= x.pd * 0x20_0000 + lowA < 0x4000_0000;
      assert 0 <= y.pd * 0x20_0000 + lowB < 0x4000_0000;
    }
  }

  /** Distinct addresses aligned to a large page lie at least a page apart. */
  lemma AlignedApart(a: u64, b: u64, pagesz: Paging.PageSize)
    requires pagesz != Paging.Size4KiB
    requires a % Paging.Bytes(pagesz) == 0 && b % Paging.Bytes(pagesz) == 0 && a < b
    ensures b - a >= Paging.Bytes(pagesz)
  {
    if pagesz == Paging.Size1GiB {
      assert a == a / 0x4000_0000 * 0x4000_0000 && b == b / 0x4000_0000 * 0x4000_0000;
    } else {
      assert a == a / 0x20_0000 * 0x20_0000 && b == b / 0x20_0000 * 0x20_0000;
    }
  }

  /** Addresses less than 2^47 apart whose low 48 bits are within 1 GiB differ by their low 48 bits. */
  lemma Low48Apart(a: u64, b: u64)
    requires a < b < a + 0x8000_0000_0000
    requires -0x4000_0000 < b % 0x1_0000_0000_0000 - a % 0x1_0000_0000_0000 < 0x4000_0000
    ensures b - a == b % 0x1_0000_0000_0000 - a % 0x1_0000_0000_0000
  {
    assert a == a / 0x1_0000_0000_0000 * 0x1_0000_0000_0000 + a % 0x1_0000_0000_0000;
    assert b == b / 0x1_0000_0000_0000 * 0x1_0000_0000_0000 + b % 0x1_0000_0000_0000;
  }

  /** Two different aligned pages less than 2^47 apart never share their indices. */
  lemma DistinctSlots(a: u64, b: u64, pagesz: Paging.PageSize)
    requires pagesz != Paging.Size4KiB
    requires a % Paging.Bytes(pagesz) == 0 && b % Paging.Bytes(pagesz) == 0
    requires a < b < a + 0x8000_0000_0000
    ensures !SameSlot(pagesz, Paging.Decompose(a), Paging.Decompose(b))
  {
    if SameSlot(pagesz, Paging.Decompose(a), Paging.Decompose(b)) {
      SameSlotClose(a, b, pagesz);
      Low48Apart(a, b);
      AlignedApart(a, b, pagesz);
    }
  }

  /** The indices that identify the `pagesz` page containing `x`: those above its offset. */
  function SlotKey(pagesz: Paging.PageSize, x: Paging.Indices): Paging.Indices
  {
    match pagesz
    case Size1GiB => Paging.Indices(x.pml4, x.pdp, 0, 0)
    case Size2MiB => Paging.Indices(x.pml4, x.pdp, x.pd, 0)
    case Size4KiB => x
  }

  lemma SameSlotKey(pagesz: Paging.PageSize, x: Paging.Indices, y: Paging.Indices)
    ensures SameSlot(pagesz, x, y) <==> SlotKey(pagesz, x) == SlotKey(pagesz, y)
    ensures SameSlot(Paging.Size1GiB, x, y) <==> SlotKey(Paging.Size1GiB, x) == SlotKey(Paging.Size1GiB, y)
  {
  }

  /**
   * The `keysize` pages the loop of `map_pages` visits from `v` and `p`:
   * the same iteration as `MapPagesFrom`.
   */
  function RunKeys(v: nat, p: nat, endV: u64, endP: u64, pagesz: Paging.PageSize, keysize: Paging.PageSize): set<Paging.Indices>
    decreases endV - v
  {
    if v < endV && p < endP then
      {SlotKey(keysize, Paging.Decompose(v))} +
      RunKeys(v + Paging.Bytes(pagesz), p + Paging.Bytes(pagesz), endV, endP, pagesz, keysize)
    else {}
  }

  /** Every page the loop of `map_pages` visits from `v` and `p` translates to its physical page in `m`. */
  ghost predicate RunMapped(m: Memory, root: u64, v: nat, p: nat, endV: u64, endP: u64, pagesz: Paging.PageSize)
  {
    forall k :: 0 <= k < Steps(v, p, endV, endP, Paging.Bytes(pagesz)) ==>
      MapsPage(m, root, PageAt(v, k, Paging.Bytes(pagesz)), PageAt(p, k, Paging.Bytes(pagesz)), pagesz)
  }

  /**
   * A walk along `x` a run of `pagesz` pages with the given page and 1 GiB
   * keys does not disturb: outside all of its pages and, for 2 MiB pages,
   * not a 1 GiB page that covered one of them.
   */
  predicate UntouchedBy(pagesz: Paging.PageSize, x: Paging.Indices, keys: set<Paging.Indices>,
                        gibKeys: set<Paging.Indices>, w: Translation)
  {
    SlotKey(pagesz, x) !in keys &&
    (pagesz == Paging.Size1GiB || SlotKey(Paging.Size1GiB, x) !in gibKeys || !(w.Leaf? && w.size == Paging.Size1GiB))
  }

  /** Every walk the run does not touch is the same in `m'` as in `m`. */
  ghost predicate RunFrame(m: Memory, m': Memory, root: u64, pagesz: Paging.PageSize,
                           keys: set<Paging.Indices>, gibKeys: set<Paging.Indices>)
  {
    forall x :: IndicesInRange(x) && UntouchedBy(pagesz, x, keys, gibKeys, WalkFrom(m, root, Paging.PML4, x)) ==>
      WalkFrom(m', root, Paging.PML4, x) == WalkFrom(m, root, Paging.PML4, x)
  }

  /** Adding a large page size to an aligned address keeps it aligned. */
  lemma AlignedStep(v: nat, pagesz: Paging.PageSize)
    requires pagesz != Paging.Size4KiB && v % Paging.Bytes(pagesz) == 0
    ensures (v + Paging.Bytes(pagesz)) % Paging.Bytes(pagesz) == 0
  {
  }

  /** The first page of a run shares no key with the pages after it, all less than 2^47 further on. */
  lemma {:induction false} HeadNotInRest(v0: u64, v: nat, p: nat, endV: u64, endP: u64, pagesz: Paging.PageSize)
    requires pagesz != Paging.Size4KiB
    requires v0 % Paging.Bytes(pagesz) == 0 && v % Paging.Bytes(pagesz) == 0
    requires v0 < v && endV <= v0 + 0x8000_0000_0000
    ensures SlotKey(pagesz, Paging.Decompose(v0)) !in RunKeys(v, p, endV, endP, pagesz, pagesz)
    decreases endV - v
  {
    var sz := Paging.Bytes(pagesz);
    if v < endV && p < endP {
      DistinctSlots(v0, v, pagesz);
      SameSlotKey(pagesz, Paging.Decompose(v0), Paging.Decompose(v));
      AlignedStep(v, pagesz);
      HeadNotInRest(v0, v + sz, p + sz, endV, endP, pagesz);
    }
  }

  /** A walk untouched by the whole run is untouched by its first page and by the rest. */
  lemma RunFrameCompose(m: Memory, m1: Memory, m': Memory, root: u64, pagesz: Paging.PageSize, v: u64,
                        keys: set<Paging.Indices>, gibKeys: set<Paging.Indices>)
    requires forall x :: IndicesInRange(x) && Untouched(pagesz, x, Paging.Decompose(v), WalkFrom(m, root, Paging.PML4, x)) ==>
               WalkFrom(m1, root, Paging.PML4, x) == WalkFrom(m, root, Paging.PML4, x)
    requires RunFrame(m1, m', root, pagesz, keys, gibKeys)
    ensures RunFrame(m, m', root, pagesz, {SlotKey(pagesz, Paging.Decompose(v))} + keys,
                     {SlotKey(Paging.Size1GiB, Paging.Decompose(v))} + gibKeys)
  {
    forall x | IndicesInRange(x)
      ensures Untouched(pagesz, x, Paging.Decompose(v), WalkFrom(m, root, Paging.PML4, x)) <==>
              UntouchedBy(pagesz, x, {SlotKey(pagesz, Paging.Decompose(v))},
                          {SlotKey(Paging.Size1GiB, Paging.Decompose(v))}, WalkFrom(m, root, Paging.PML4, x))
    {
      SameSlotKey(pagesz, x, Paging.Decompose(v));
    }
  }

  /**
   * The loop of `map_pages`, given a run spanning less than 2^47 bytes: the
   * tree is kept, every page it visits translates to its physical page, and
   * every walk the run does not touch is unchanged.
   */
  lemma MapPagesOutcome(s: PagingState, s': PagingState, start: u64, end: u64, root: u64,
                        roles: map<u64, Role>, v: nat, p: nat, endV: u64, endP: u64, pagesz: Paging.PageSize)
    returns (roles': map<u64, Role>)
    requires Wf(s, start, end, root, roles)
    requires endV <= v + 0x8000_0000_0000
    requires Loop(s, end, root, v, p, endV, endP, pagesz) == Ok(s')
    ensures Wf(s', start, end, root, roles')
    ensures RunMapped(s'.mem, root, v, p, endV, endP, pagesz)
    ensures RunFrame(s.mem, s'.mem, root, pagesz,
                     RunKeys(v, p, endV, endP, pagesz, pagesz),
                     RunKeys(v, p, endV, endP, pagesz, Paging.Size1GiB))
  {
    roles' := MapPagesRun(s, s', start, end, root, roles, v, p, endV, endP, pagesz);
  }

  /**
   * What the loop of `map_pages` from `v` and `p` does when the tree
   * invariant held before it: the invariant holds after it, every page it
   * visits translates to its physical page, and every walk it does not touch
   * is unchanged.
   */
  ghost predicate RunOutcome(s: PagingState, s': PagingState, start: u64, end: u64, root: u64,
                             roles: map<u64, Role>, roles': map<u64, Role>,
                             v: nat, p: nat, endV: u64, endP: u64, pagesz: Paging.PageSize)
  {
    Wf(s, start, end, root, roles) ==>
      && Wf(s', start, end, root, roles')
      && RunMapped(s'.mem, root, v, p, endV, endP, pagesz)
      && RunFrame(s.mem, s'.mem, root, pagesz,
                  RunKeys(v, p, endV, endP, pagesz, pagesz),
                  RunKeys(v, p, endV, endP, pagesz, Paging.Size1GiB))
  }

  /** The loop of `map_pages` has `RunOutcome` from any starting state. */
  lemma {:induction false} MapPagesRun(s: PagingState, s': PagingState, start: u64, end: u64, root: u64,
                                       roles: map<u64, Role>, v: nat, p: nat, endV: u64, endP: u64,
                                       pagesz: Paging.PageSize)
    returns (roles': map<u64, Role>)
    requires endV <= v + 0x8000_0000_0000
    requires Loop(s, end, root, v, p, endV, endP, pagesz) == Ok(s')
    ensures RunOutcome(s, s', start, end, root, roles, roles', v, p, endV, endP, pagesz)
    decreases endV - v
  {
    if v < endV && p < endP {
      var s1, roles1 := MapPagesHead(s, s', start, end, root, roles, v, p, endV, endP, pagesz);
      roles' := MapPagesRun(s1, s', start, end, root, roles1, v + Paging.Bytes(pagesz), p + Paging.Bytes(pagesz),
                            endV, endP, pagesz);
      MapPagesGlue(s, s1, s', start, end, root, roles, roles1, roles', v, p, endV, endP, pagesz);
    } else {
      roles' := roles;
      MapPagesDone(s, s', start, end, root, roles, v, p, endV, endP, pagesz);
    }
  }

  /** A run with no page left changes nothing. */
  lemma MapPagesDone(s: PagingState, s': PagingState, start: u64, end: u64, root: u64,
                     roles: map<u64, Role>, v: nat, p: nat, endV: u64, endP: u64, pagesz: Paging.PageSize)
    requires !(v < endV && p < endP)
    requires Loop(s, end, root, v, p, endV, endP, pagesz) == Ok(s')
    ensures RunOutcome(s, s', start, end, root, roles, roles, v, p, endV, endP, pagesz)
  {
    RunEmpty(s.mem, root, v, p, endV, endP, pagesz);
    RunFrameSame(s.mem, root, pagesz, RunKeys(v, p, endV, endP, pagesz, pagesz),
                 RunKeys(v, p, endV, endP, pagesz, Paging.Size1GiB));
  }

  /** What `map_page` on the first page of a run does when the tree invariant held before it. */
  ghost predicate HeadOutcome(s: PagingState, s1: PagingState, start: u64, end: u64, root: u64,
                              roles: map<u64, Role>, roles1: map<u64, Role>, v: u64, p: u64, pagesz: Paging.PageSize)
  {
    Wf(s, start, end, root, roles) ==> Wf(s1, start, end, root, roles1) && PageStep(s.mem, s1.mem, root, v, p, pagesz)
  }

  /** The first page of a run followed by the rest of it has the outcome of the whole run. */
  lemma MapPagesGlue(s: PagingState, s1: PagingState, s': PagingState, start: u64, end: u64, root: u64,
                     roles: map<u64, Role>, roles1: map<u64, Role>, roles': map<u64, Role>,
                     v: nat, p: nat, endV: u64, endP: u64, pagesz: Paging.PageSize)
    requires v < endV && p < endP && endV <= v + 0x8000_0000_0000
    requires pagesz != Paging.Size4KiB && v % Paging.Bytes(pagesz) == 0
    requires HeadOutcome(s, s1, start, end, root, roles, roles1, v, p, pagesz)
    requires RunOutcome(s1, s', start, end, root, roles1, roles', v + Paging.Bytes(pagesz), p + Paging.Bytes(pagesz),
                        endV, endP, pagesz)
    ensures RunOutcome(s, s', start, end, root, roles, roles', v, p, endV, endP, pagesz)
  {
    MapPagesCons(s.mem, s1.mem, s'.mem, root, v, p, endV, endP, pagesz);
  }

  /**
   * What mapping the page at `v` to `p` did to the walks: that page
   * translates to `p`'s page in `m1`, and every walk it does not touch is as
   * in `m`.
   */
  ghost predicate PageStep(m: Memory, m1: Memory, root: u64, v: u64, p: u64, pagesz: Paging.PageSize)
  {
    && Walk(m1, root, v) == Leaf(pagesz, Paging.AddressBits(p))
    && (forall x :: IndicesInRange(x) && Untouched(pagesz, x, Paging.Decompose(v), WalkFrom(m, root, Paging.PML4, x)) ==>
          WalkFrom(m1, root, Paging.PML4, x) == WalkFrom(m, root, Paging.PML4, x))
  }

  /** The first page of a run followed by the rest of it gives the run. */
  lemma MapPagesCons(m: Memory, m1: Memory, m': Memory, root: u64,
                     v: u64, p: u64, endV: u64, endP: u64, pagesz: Paging.PageSize)
    requires v < endV && p < endP && endV <= v + 0x8000_0000_0000
    requires pagesz != Paging.Size4KiB && v % Paging.Bytes(pagesz) == 0
    ensures PageStep(m, m1, root, v, p, pagesz) &&
            RunMapped(m', root, v + Paging.Bytes(pagesz), p + Paging.Bytes(pagesz), endV, endP, pagesz) &&
            RunFrame(m1, m', root, pagesz,
                     RunKeys(v + Paging.Bytes(pagesz), p + Paging.Bytes(pagesz), endV, endP, pagesz, pagesz),
                     RunKeys(v + Paging.Bytes(pagesz), p + Paging.Bytes(pagesz), endV, endP, pagesz, Paging.Size1GiB))
            ==>
            RunMapped(m', root, v, p, endV, endP, pagesz) &&
            RunFrame(m, m', root, pagesz,
                     RunKeys(v, p, endV, endP, pagesz, pagesz),
                     RunKeys(v, p, endV, endP, pagesz, Paging.Size1GiB))
  {
    var sz := Paging.Bytes(pagesz);
    var x := Paging.Decompose(v);
    if PageStep(m, m1, root, v, p, pagesz) &&
       RunMapped(m', root, v + sz, p + sz, endV, endP, pagesz) &&
       RunFrame(m1, m', root, pagesz, RunKeys(v + sz, p + sz, endV, endP, pagesz, pagesz),
                RunKeys(v + sz, p + sz, endV, endP, pagesz, Paging.Size1GiB))
    {
      RunHeadKept(m1, m', root, v, p, endV, endP, pagesz);
      RunMappedCons(m', root, v, p, endV, endP, pagesz);
      RunFrameCompose(m, m1, m', root, pagesz, v,
                      RunKeys(v + sz, p + sz, endV, endP, pagesz, pagesz),
                      RunKeys(v + sz, p + sz, endV, endP, pagesz, Paging.Size1GiB));
      assert RunKeys(v, p, endV, endP, pagesz, pagesz) ==
             {SlotKey(pagesz, x)} + RunKeys(v + sz, p + sz, endV, endP, pagesz, pagesz);
      assert RunKeys(v, p, endV, endP, pagesz, Paging.Size1GiB) ==
             {SlotKey(Paging.Size1GiB, x)} + RunKeys(v + sz, p + sz, endV, endP, pagesz, Paging.Size1GiB);
    }
  }

  /**
   * One iteration of the loop of `map_pages`: `map_page` on the current
   * pages, then the rest of the run; when the tree invariant held before
   * it, it holds after and the page is mapped.
   */
  lemma MapPagesHead(s: PagingState, s': PagingState, start: u64, end: u64, root: u64, roles: map<u64, Role>,
                     v: nat, p: nat, endV: u64, endP: u64, pagesz: Paging.PageSize)
    returns (s1: PagingState, roles1: map<u64, Role>)
    requires v < endV && p < endP && Loop(s, end, root, v, p, endV, endP, pagesz) == Ok(s')
    ensures pagesz != Paging.Size4KiB && v % Paging.Bytes(pagesz) == 0
    ensures Loop(s1, end, root, v + Paging.Bytes(pagesz), p + Paging.Bytes(pagesz), endV, endP, pagesz) == Ok(s')
    ensures HeadOutcome(s, s1, start, end, root, roles, roles1, v, p, pagesz)
  {
    assert Loop(s, end, root, v, p, endV, endP, pagesz) == MapPageThenRest(s, end, root, v, p, endV, endP, pagesz);
    s1 := MapPageSpec(s, end, root, v, p, pagesz).value;
    if Wf(s, start, end, root, roles) {
      roles1 := MapPageOutcome(s, start, end, root, roles, v, p, pagesz);
      var x := Paging.Decompose(v);
      assert SameSlot(pagesz, x, x);
    } else {
      roles1 := roles;
    }
  }

  lemma RunFrameSame(m: Memory, root: u64, pagesz: Paging.PageSize, keys: set<Paging.Indices>, gibKeys: set<Paging.Indices>)
    ensures RunFrame(m, m, root, pagesz, keys, gibKeys)
  {
  }

  /** A run with no pages maps nothing and has no keys. */
  lemma RunEmpty(m: Memory, root: u64, v: nat, p: nat, endV: u64, endP: u64, pagesz: Paging.PageSize)
    requires !(v < endV && p < endP)
    ensures RunMapped(m, root, v, p, endV, endP, pagesz)
    ensures RunKeys(v, p, endV, endP, pagesz, pagesz) == {}
    ensures RunKeys(v, p, endV, endP, pagesz, Paging.Size1GiB) == {}
  {
  }

  lemma RunMappedCons(m: Memory, root: u64, v: u64, p: u64, endV: u64, endP: u64, pagesz: Paging.PageSize)
    requires v < endV && p < endP && Walk(m, root, v) == Leaf(pagesz, Paging.AddressBits(p))
    requires RunMapped(m, root, v + Paging.Bytes(pagesz), p + Paging.Bytes(pagesz), endV, endP, pagesz)
    ensures RunMapped(m, root, v, p, endV, endP, pagesz)
  {
    var maps := (u, q) => MapsPage(m, root, u, q, pagesz);
    RunCons(maps, v, p, v + Paging.Bytes(pagesz), p + Paging.Bytes(pagesz), endV, endP, Paging.Bytes(pagesz));
  }

  /** A pair of pages with property `f` followed by a run of them from `v1 = v + sz`, `p1 = p + sz` is a run of them. */
  lemma RunCons(f: (int, int) -> bool, v: nat, p: nat, v1: nat, p1: nat, endV: u64, endP: u64, sz: nat)
    requires sz > 0 && v1 == v + sz && p1 == p + sz && v < endV && p < endP && f(v, p)
    requires forall k :: 0 <= k < Steps(v1, p1, endV, endP, sz) ==> f(PageAt(v1, k, sz), PageAt(p1, k, sz))
    ensures forall k :: 0 <= k < Steps(v, p, endV, endP, sz) ==> f(PageAt(v, k, sz), PageAt(p, k, sz))
  {
    forall k | 0 <= k < Steps(v, p, endV, endP, sz)
      ensures f(PageAt(v, k, sz), PageAt(p, k, sz))
    {
      if k > 0 {
        assert k - 1 < Steps(v1, p1, endV, endP, sz);
        PageAtShift(v, k - 1, sz);
        PageAtShift(p, k - 1, sz);
        assert f(PageAt(v1, k - 1, sz), PageAt(p1, k - 1, sz));
      }
    }
  }

  /** The page mapped first keeps its translation while the rest of the run is mapped. */
  lemma RunHeadKept(m1: Memory, m': Memory, root: u64, v: u64, p: u64, endV: u64, endP: u64, pagesz: Paging.PageSize)
    requires pagesz != Paging.Size4KiB && v % Paging.Bytes(pagesz) == 0 && endV <= v + 0x8000_0000_0000
    requires Walk(m1, root, v) == Leaf(pagesz, Paging.AddressBits(p))
    requires RunFrame(m1, m', root, pagesz,
                      RunKeys(v + Paging.Bytes(pagesz), p + Paging.Bytes(pagesz), endV, endP, pagesz, pagesz),
                      RunKeys(v + Paging.Bytes(pagesz), p + Paging.Bytes(pagesz), endV, endP, pagesz, Paging.Size1GiB))
    ensures Walk(m', root, v) == Leaf(pagesz, Paging.AddressBits(p))
  {
    var sz := Paging.Bytes(pagesz);
    AlignedStep(v, pagesz);
    HeadNotInRest(v, v + sz, p + sz, endV, endP, pagesz);
    var x := Paging.Decompose(v);
    assert UntouchedBy(pagesz, x, RunKeys(v + sz, p + sz, endV, endP, pagesz, pagesz),
                       RunKeys(v + sz, p + sz, endV, endP, pagesz, Paging.Size1GiB), WalkFrom(m1, root, Paging.PML4, x));
  }

  // ---------------------------------------------------------------------
  // `map_pages` as its callers see it

  /**
   * The virtual page at `u` translates to the physical page at `q`; both are
   * 64-bit addresses (a run's page counted past 2^64 is never mapped).
   */
  ghost predicate MapsPage(m: Memory, root: u64, u: int, q: int, pagesz: Paging.PageSize)
  {
    0 <= u < U64_LIMIT && 0 <= q < U64_LIMIT && Walk(m, root, u) == Leaf(pagesz, Paging.AddressBits(q))
  }

  /** The first `n` pages from `vaddr` translate to the pages at the same positions from `paddr`. */
  ghost predicate PagesMapped(m: Memory, root: u64, vaddr: u64, paddr: u64, pagesz: Paging.PageSize, n: nat)
  {
    forall k :: 0 <= k < n ==>
      MapsPage(m, root, PageAt(vaddr, k, Paging.Bytes(pagesz)), PageAt(paddr, k, Paging.Bytes(pagesz)), pagesz)
  }

  /** Every key of a run is the key of some address the run covers. */
  lemma {:induction false} RunKeysWithin(v: nat, p: nat, endV: u64, endP: u64, pagesz: Paging.PageSize,
                                         keysize: Paging.PageSize, key: Paging.Indices)
    requires key in RunKeys(v, p, endV, endP, pagesz, keysize)
    ensures exists u: u64 :: v <= u < endV && key == SlotKey(keysize, Paging.Decompose(u))
    decreases endV - v
  {
    if key != SlotKey(keysize, Paging.Decompose(v)) {
      RunKeysWithin(v + Paging.Bytes(pagesz), p + Paging.Bytes(pagesz), endV, endP, pagesz, keysize, key);
    }
  }

  /**
   * `map_pages` on a well-formed tree: when it returns, the tree is kept,
   * each of the `cnt` pages translates to its physical page (none when a
   * range would run past 2^64), and every walk the run does not touch is
   * unchanged.
   */
  lemma MapPagesSpecOutcome(s: PagingState, s': PagingState, start: u64, end: u64, root: u64, roles: map<u64, Role>,
                            vaddr: u64, paddr: u64, pagesz: Paging.PageSize, cnt: nat)
    returns (roles': map<u64, Role>)
    requires Wf(s, start, end, root, roles)
    requires MapPagesSpec(s, end, root, vaddr, paddr, pagesz, cnt) == Ok(s')
    ensures Wf(s', start, end, root, roles')
    ensures PagesMapped(s'.mem, root, vaddr, paddr, pagesz, MappedCount(vaddr, paddr, pagesz, cnt))
    ensures RunFrame(s.mem, s'.mem, root, pagesz,
                     RunKeys(vaddr, paddr, RangeEnd(vaddr, pagesz, cnt), RangeEnd(paddr, pagesz, cnt), pagesz, pagesz),
                     RunKeys(vaddr, paddr, RangeEnd(vaddr, pagesz, cnt), RangeEnd(paddr, pagesz, cnt), pagesz, Paging.Size1GiB))
  {
    var sz := Paging.Bytes(pagesz);
    var endV, endP := RangeEnd(vaddr, pagesz, cnt), RangeEnd(paddr, pagesz, cnt);
    assert sz * cnt <= 0x4000_0000 * 512;
    roles' := MapPagesOutcome(s, s', start, end, root, roles, vaddr, paddr, endV, endP, pagesz);
    MapPagesCount(vaddr, paddr, pagesz, cnt);
  }
}
