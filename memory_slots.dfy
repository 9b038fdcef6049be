// The kernel's physical memory map as a value: 128 slots, each empty or
// holding a descriptor. Every operation of the map is specified here as a
// function from the old slots to the new ones; the class in memory_map.dfy
// performs the same steps in place and is proved to agree with these.

module MemorySlots {
  import opened Prelude
  import opened PhysMem
  import opened PhysRanges
  import Paging

  /** Base of the physical memory the loader set aside for the kernel image. */
  const KERNEL_PHYS_BASE: u64 := 0x400_0000

  type Slots = seq<Option<MemoryDesc>>

  // ---------------------------------------------------------------------
  // Searching

  /** The first slot at or after `i` holding a descriptor that satisfies `f`. */
  function FirstMatchFrom(s: Slots, f: MemoryDesc -> bool, i: nat): (r: Option<nat>)
    requires i <= |s|
    ensures r.Some? ==> i <= r.value < |s| && s[r.value].Some? && f(s[r.value].value)
    ensures forall j :: i <= j < |s| && (r.None? || j < r.value) ==> s[j].None? || !f(s[j].value)
    decreases |s| - i
  {
    if i == |s| then None
    else if s[i].Some? && f(s[i].value) then Some(i)
    else FirstMatchFrom(s, f, i + 1)
  }

  function FirstMatch(s: Slots, f: MemoryDesc -> bool): Option<nat>
  {
    FirstMatchFrom(s, f, 0)
  }

  /** The lowest empty slot at or after `i`. */
  function FirstFreeFrom(s: Slots, i: nat): (r: Option<nat>)
    requires i <= |s|
    ensures r.Some? ==> i <= r.value < |s| && s[r.value].None?
    ensures forall j :: i <= j < |s| && (r.None? || j < r.value) ==> s[j].Some?
    decreases |s| - i
  {
    if i == |s| then None
    else if s[i].None? then Some(i)
    else FirstFreeFrom(s, i + 1)
  }

  function FirstFree(s: Slots): Option<nat>
  {
    FirstFreeFrom(s, 0)
  }

  /** `iter_valid`: the descriptors of the occupied slots, in slot order. */
  function LiveEntries(s: Slots): (r: seq<MemoryDesc>)
    ensures |r| <= |s|
  {
    if s == [] then []
    else (if s[0].Some? then [s[0].value] else []) + LiveEntries(s[1..])
  }

  /** `Iterator::find`: the first element of a sequence that satisfies `f`. */
  function FindFirst(xs: seq<MemoryDesc>, f: MemoryDesc -> bool): (r: Option<MemoryDesc>)
    ensures r.Some? ==> r.value in xs && f(r.value)
    ensures r.None? <==> forall i :: 0 <= i < |xs| ==> !f(xs[i])
    ensures r.Some? ==> exists i :: 0 <= i < |xs| && xs[i] == r.value && forall j :: 0 <= j < i ==> !f(xs[j])
  {
    if xs == [] then None
    else if f(xs[0]) then Some(xs[0])
    else
      var r := FindFirst(xs[1..], f);
      assert forall i :: 1 <= i < |xs| ==> xs[i] == xs[1..][i - 1];
      r
  }

  /** Searching slots from `i + 1` is searching the tail from `i`, one index lower. */
  lemma {:induction false} FirstMatchShift(s: Slots, f: MemoryDesc -> bool, i: nat)
    requires 1 <= i <= |s|
    ensures FirstMatchFrom(s, f, i) ==
      (match FirstMatchFrom(s[1..], f, i - 1) case None => None case Some(k) => Some(k + 1))
    decreases |s| - i
  {
    if i < |s| {
      FirstMatchShift(s, f, i + 1);
    }
  }

  /**
   * `find_with` is `iter_valid().find(f)`: the first live descriptor
   * satisfying `f` is the one in the first slot the slot search finds.
   */
  lemma {:induction false} FirstMatchIsFirstLive(s: Slots, f: MemoryDesc -> bool)
    ensures FindFirst(LiveEntries(s), f) ==
      (match FirstMatch(s, f) case None => None case Some(k) => Some(s[k].value))
  {
    if s != [] {
      var tail := LiveEntries(s[1..]);
      var live := LiveEntries(s);
      if s[0].Some? && f(s[0].value) {
        assert live == [s[0].value] + tail;
      } else {
        FirstMatchIsFirstLive(s[1..], f);
        FirstMatchShift(s, f, 1);
        if s[0].Some? {
          assert live == [s[0].value] + tail;
          assert live[1..] == tail;
        } else {
          assert live == tail;
        }
        match FirstMatch(s[1..], f)
        case None =>
        case Some(k) => assert s[k + 1] == s[1..][k];
      }
    }
  }

  // ---------------------------------------------------------------------
  // Inserting

  /** Number of empty slots. */
  function FreeCount(s: Slots): (n: nat)
    ensures n <= |s|
  {
    if s == [] then 0 else (if s[|s| - 1].None? then 1 else 0) + FreeCount(s[..|s| - 1])
  }

  lemma {:induction false} FreeCountZero(s: Slots)
    ensures FreeCount(s) == 0 <==> forall j :: 0 <= j < |s| ==> s[j].Some?
  {
    if s != [] {
      FreeCountZero(s[..|s| - 1]);
    }
  }

  /** Filling an empty slot uses up exactly one free slot; rewriting an occupied one uses none. */
  lemma {:induction false} FreeCountUpdate(s: Slots, i: nat, d: MemoryDesc)
    requires i < |s|
    ensures FreeCount(s[i := Some(d)]) == FreeCount(s) - (if s[i].None? then 1 else 0)
  {
    var t := s[i := Some(d)];
    if i < |s| - 1 {
      assert t[..|t| - 1] == s[..|s| - 1][i := Some(d)];
      FreeCountUpdate(s[..|s| - 1], i, d);
    } else {
      assert t[..|t| - 1] == s[..|s| - 1];
    }
  }

  /** `allocate_new_region`: the descriptor goes into the lowest empty slot; with none left it panics. */
  function InsertNew(s: Slots, d: MemoryDesc): (r: Result<Slots>)
    ensures r.Err? <==> forall j :: 0 <= j < |s| ==> s[j].Some?
    ensures r.Err? ==> r.fault == MapFull
    ensures r.Ok? ==> |r.value| == |s| && exists i :: (0 <= i < |s| && s[i].None?
      && (forall j :: 0 <= j < i ==> s[j].Some?)
      && r.value[i] == Some(d)
      && (forall j :: 0 <= j < |s| && j != i ==> r.value[j] == s[j]))
  {
    match FirstFree(s)
    case None => Err(MapFull)
    case Some(i) => Ok(s[i := Some(d)])
  }

  // ---------------------------------------------------------------------
  // Invariants of a map

  /** The occupied slots form a prefix: no empty slot comes before an occupied one. */
  ghost predicate Packed(s: Slots)
  {
    forall i, j :: 0 <= i < j < |s| && s[j].Some? ==> s[i].Some?
  }

  predicate Disjoint(a: PhysRange, b: PhysRange)
  {
    a.end <= a.start || b.end <= b.start || a.end <= b.start || b.end <= a.start
  }

  /** Two ranges are disjoint exactly when no address lies in both. */
  lemma DisjointMeansNoCommonAddress(a: PhysRange, b: PhysRange)
    ensures Disjoint(a, b) <==> forall x :: !(InRange(x, a) && InRange(x, b))
  {
    if !Disjoint(a, b) {
      var x := if a.start < b.start then b.start else a.start;
      assert InRange(x, a) && InRange(x, b);
    }
  }

  /** Every occupied slot holds a well-formed range, and no two occupied slots share an address. */
  ghost predicate NonOverlapping(s: Slots)
  {
    && (forall i :: 0 <= i < |s| && s[i].Some? ==> WellFormed(s[i].value.range))
    && (forall i, j :: 0 <= i < |s| && 0 <= j < |s| && i != j && s[i].Some? && s[j].Some? ==>
          Disjoint(s[i].value.range, s[j].value.range))
  }

  /** An address covered by some occupied slot. */
  ghost predicate Covered(s: Slots, x: int)
  {
    exists i :: 0 <= i < |s| && s[i].Some? && InRange(x, s[i].value.range)
  }

  // ---------------------------------------------------------------------
  // Carving a requested range out of a region

  /** Free slots that splitting the candidate needs: one for a pair, two for a triad. */
  function SlotsNeeded(sp: PhysRangeSet): nat
  {
    match sp
    case Pair(_, _) => 1
    case Triad(_, _, _) => 2
    case Invalid => 0
  }

  /**
   * The split handling shared by `allocate` and `allocate_at`: the candidate
   * slot `c` keeps the part of its range below (or, for a pair, beside) the
   * request; the request, tagged `kind`, goes into the lowest empty slot; for
   * a triad the part above the request, keeping the candidate's kind, goes
   * into the next empty slot. The candidate contains the request, so the
   * split is never `Invalid`.
   */
  function Carve(s: Slots, c: nat, q: PhysRange, kind: MemoryKind): Result<(Slots, MemoryDesc)>
    requires c < |s| && s[c].Some? && ContainsRange(s[c].value.range, q)
  {
    var cand := s[c].value;
    match Split(cand.range, q)
    case Pair(rest, request) =>
      var nd := MemoryDesc(kind, request);
      (match InsertNew(s[c := Some(cand.(range := rest))], nd)
       case Err(e) => Err(e)
       case Ok(s2) => Ok((s2, nd)))
    case Triad(lo, request, hi) =>
      var nd := MemoryDesc(kind, request);
      match InsertNew(s[c := Some(cand.(range := lo))], nd)
      case Err(e) => Err(e)
      case Ok(s2) =>
        match InsertNew(s2, MemoryDesc(cand.kind, hi))
        case Err(e) => Err(e)
        case Ok(s3) => Ok((s3, nd))
  }

  /** Carving fails only when the map lacks the free slots the split needs. */
  lemma CarveFailsWhenFull(s: Slots, c: nat, q: PhysRange, kind: MemoryKind)
    requires c < |s| && s[c].Some? && ContainsRange(s[c].value.range, q)
    ensures Carve(s, c, q, kind).Err? <==> FreeCount(s) < SlotsNeeded(Split(s[c].value.range, q))
    ensures Carve(s, c, q, kind).Err? ==> Carve(s, c, q, kind).fault == MapFull
  {
    var cand := s[c].value;
    var sp := Split(cand.range, q);
    var s1 := s[c := Some(cand.(range := Remainders(sp)[0]))];
    FreeCountUpdate(s, c, s1[c].value);
    var nd := MemoryDesc(kind, q);
    InsertNewFree(s1, nd);
    if sp.Triad? && InsertNew(s1, nd).Ok? {
      InsertNewFree(InsertNew(s1, nd).value, MemoryDesc(cand.kind, sp.oldHi));
    }
  }

  /** Inserting succeeds exactly when a slot is free, and uses up one free slot. */
  lemma InsertNewFree(s: Slots, d: MemoryDesc)
    ensures InsertNew(s, d).Ok? <==> FreeCount(s) >= 1
    ensures InsertNew(s, d).Ok? ==> FreeCount(InsertNew(s, d).value) == FreeCount(s) - 1
  {
    FreeCountZero(s);
    if InsertNew(s, d).Ok? {
      FreeCountUpdate(s, FirstFree(s).value, d);
    }
  }

  /**
   * What a successful carve does: the result is the request tagged `kind`;
   * the candidate keeps the remainder below or beside the request; for a
   * triad the part above the request is stored, with the candidate's kind,
   * in a slot that was empty; every slot that was occupied, other than the
   * candidate, is unchanged.
   */
  lemma CarveResult(s: Slots, c: nat, q: PhysRange, kind: MemoryKind)
    requires c < |s| && s[c].Some? && ContainsRange(s[c].value.range, q)
    requires Carve(s, c, q, kind).Ok?
    ensures var (s', d) := Carve(s, c, q, kind).value;
      var cand := s[c].value;
      var sp := Split(cand.range, q);
      && d == MemoryDesc(kind, q)
      && |s'| == |s|
      && s'[c] == Some(cand.(range := Remainders(sp)[0]))
      && (exists i :: 0 <= i < |s| && s[i].None? && s'[i] == Some(d))
      && (sp.Triad? ==> exists i :: 0 <= i < |s| && s[i].None? && s'[i] == Some(MemoryDesc(cand.kind, sp.oldHi)))
      && (forall j :: 0 <= j < |s| && j != c && s[j].Some? ==> s'[j] == s[j])
      && (forall j :: 0 <= j < |s| && s'[j].None? ==> s[j].None?)
  {
    var cand := s[c].value;
    var sp := Split(cand.range, q);
    var (s', d) := Carve(s, c, q, kind).value;
    if sp.Triad? {
      var s1 := s[c := Some(cand.(range := sp.oldLo))];
      var s2 := InsertNew(s1, d).value;
      var i1 := FirstFree(s1).value;
      var i2 := FirstFree(s2).value;
      assert s'[i1] == Some(d);
      assert s'[i2] == Some(MemoryDesc(cand.kind, sp.oldHi));
    }
  }

  /** Carving keeps the occupied slots packed. */
  lemma CarvePreservesPacked(s: Slots, c: nat, q: PhysRange, kind: MemoryKind)
    requires c < |s| && s[c].Some? && ContainsRange(s[c].value.range, q)
    requires Packed(s) && Carve(s, c, q, kind).Ok?
    ensures Packed(Carve(s, c, q, kind).value.0)
  {
    var cand := s[c].value;
    var sp := Split(cand.range, q);
    var rest := Remainders(sp)[0];
    var s1 := s[c := Some(cand.(range := rest))];
    var s2 := InsertNew(s1, MemoryDesc(kind, q)).value;
    InsertNewPacked(s1, MemoryDesc(kind, q));
    if sp.Triad? {
      InsertNewPacked(s2, MemoryDesc(cand.kind, sp.oldHi));
    }
  }

  lemma InsertNewPacked(s: Slots, d: MemoryDesc)
    requires Packed(s) && InsertNew(s, d).Ok?
    ensures Packed(InsertNew(s, d).value)
  {
    var i := FirstFree(s).value;
    var t := InsertNew(s, d).value;
    forall a, b | 0 <= a < b < |t| && t[b].Some? ensures t[a].Some? {
      if b != i && a != i {
        assert s[b].Some?;
      }
    }
  }

  /** A sub-range of a range disjoint from `b` is disjoint from `b`. */
  lemma SubRangeDisjoint(outer: PhysRange, inner: PhysRange, b: PhysRange)
    requires ContainsRange(outer, inner) && WellFormed(inner) && Disjoint(outer, b)
    ensures Disjoint(inner, b)
  {
  }

  /**
   * Carving keeps descriptors pairwise disjoint and well formed, and covers
   * exactly the addresses that were covered before: an allocation only
   * re-labels part of an available region.
   */
  lemma CarvePreservesLayout(s: Slots, c: nat, q: PhysRange, kind: MemoryKind)
    requires c < |s| && s[c].Some? && ContainsRange(s[c].value.range, q) && WellFormed(q)
    requires NonOverlapping(s) && Carve(s, c, q, kind).Ok?
    ensures NonOverlapping(Carve(s, c, q, kind).value.0)
    ensures forall x :: Covered(Carve(s, c, q, kind).value.0, x) <==> Covered(s, x)
  {
    var cand := s[c].value;
    var sp := Split(cand.range, q);
    SplitTiles(cand.range, q);
    var s' := Carve(s, c, q, kind).value.0;
    CarveResult(s, c, q, kind);
    forall i, j | 0 <= i < |s'| && 0 <= j < |s'| && i != j && s'[i].Some? && s'[j].Some?
      ensures Disjoint(s'[i].value.range, s'[j].value.range)
    {
      CarveSlot(s, c, q, kind, i);
      CarveSlot(s, c, q, kind, j);
      var a := s'[i].value.range;
      var b := s'[j].value.range;
      var keptI := s[i].Some? && i != c && s'[i] == s[i];
      var keptJ := s[j].Some? && j != c && s'[j] == s[j];
      if !keptI && keptJ {
        SubRangeDisjoint(cand.range, a, b);
      } else if keptI && !keptJ {
        SubRangeDisjoint(cand.range, b, a);
      } else if !keptI && !keptJ {
        CarvePiecesDistinct(s, c, q, kind, i, j);
        PiecesDisjoint(cand.range, q, a, b);
      }
    }
    CarvePreservesCoverage(s, c, q, kind);
  }

  /** Carving covers exactly the addresses that were covered before. */
  lemma CarvePreservesCoverage(s: Slots, c: nat, q: PhysRange, kind: MemoryKind)
    requires c < |s| && s[c].Some? && ContainsRange(s[c].value.range, q) && WellFormed(q)
    requires Carve(s, c, q, kind).Ok?
    ensures forall x :: Covered(Carve(s, c, q, kind).value.0, x) <==> Covered(s, x)
  {
    var cand := s[c].value;
    SplitTiles(cand.range, q);
    var s' := Carve(s, c, q, kind).value.0;
    CarveResult(s, c, q, kind);
    forall x ensures Covered(s', x) <==> Covered(s, x) {
      if Covered(s, x) {
        var i :| 0 <= i < |s| && s[i].Some? && InRange(x, s[i].value.range);
        if i != c {
          assert s'[i] == s[i];
        } else {
          CoveredByPiece(s, c, q, kind, x);
        }
      }
      if Covered(s', x) {
        var i :| 0 <= i < |s'| && s'[i].Some? && InRange(x, s'[i].value.range);
        CarveSlot(s, c, q, kind, i);
        if !(s[i].Some? && i != c && s'[i] == s[i]) {
          assert InRange(x, cand.range);
        }
      }
    }
  }

  /** One of the ranges a split produces. */
  predicate PieceOf(r: PhysRange, sp: PhysRangeSet)
  {
    (!sp.Invalid? && r == sp.newPart) || r in Remainders(sp)
  }

  /** The slots a carve writes hold the pieces of the split; the others keep their contents. */
  lemma CarveSlot(s: Slots, c: nat, q: PhysRange, kind: MemoryKind, j: nat)
    requires c < |s| && s[c].Some? && ContainsRange(s[c].value.range, q)
    requires Carve(s, c, q, kind).Ok? && j < |s|
    ensures var s' := Carve(s, c, q, kind).value.0;
      s'[j].Some? ==> (s[j].Some? && j != c && s'[j] == s[j]) || PieceOf(s'[j].value.range, Split(s[c].value.range, q))
  {
  }

  /**
   * A slot after a carve is unchanged, or holds the request tagged `kind`,
   * or holds part of the candidate's range with the candidate's kind.
   */
  lemma CarveSlotKind(s: Slots, c: nat, q: PhysRange, kind: MemoryKind, j: nat)
    requires c < |s| && s[c].Some? && ContainsRange(s[c].value.range, q) && WellFormed(q)
    requires Carve(s, c, q, kind).Ok? && j < |s|
    ensures var s' := Carve(s, c, q, kind).value.0;
      s'[j].Some? ==>
        || (s[j].Some? && j != c && s'[j] == s[j])
        || s'[j] == Some(MemoryDesc(kind, q))
        || (s'[j].value.kind == s[c].value.kind && ContainsRange(s[c].value.range, s'[j].value.range))
  {
    SplitTiles(s[c].value.range, q);
  }

  /** Two distinct slots written by one carve hold two different pieces of the split. */
  lemma CarvePiecesDistinct(s: Slots, c: nat, q: PhysRange, kind: MemoryKind, i: nat, j: nat)
    requires c < |s| && s[c].Some? && ContainsRange(s[c].value.range, q)
    requires Carve(s, c, q, kind).Ok? && i < |s| && j < |s| && i != j
    requires var s' := Carve(s, c, q, kind).value.0;
      s'[i].Some? && s'[j].Some? &&
      !(s[i].Some? && i != c && s'[i] == s[i]) && !(s[j].Some? && j != c && s'[j] == s[j])
    ensures var s' := Carve(s, c, q, kind).value.0;
      PiecesApart(s'[i].value.range, s'[j].value.range, Split(s[c].value.range, q))
  {
  }

  /** Two pieces of a split that are not the same piece. */
  predicate PiecesApart(a: PhysRange, b: PhysRange, sp: PhysRangeSet)
  {
    match sp
    case Pair(rest, request) => (a == rest && b == request) || (a == request && b == rest)
    case Triad(lo, request, hi) =>
      (a == lo && b == request) || (a == request && b == lo) || (a == lo && b == hi) ||
      (a == hi && b == lo) || (a == request && b == hi) || (a == hi && b == request)
    case Invalid => false
  }

  lemma PiecesDisjoint(r: PhysRange, q: PhysRange, a: PhysRange, b: PhysRange)
    requires ContainsRange(r, q) && WellFormed(q) && PiecesApart(a, b, Split(r, q))
    ensures Disjoint(a, b)
  {
  }

  /** An address of the candidate's range lies in one of the carved slots. */
  lemma CoveredByPiece(s: Slots, c: nat, q: PhysRange, kind: MemoryKind, x: int)
    requires c < |s| && s[c].Some? && ContainsRange(s[c].value.range, q) && WellFormed(q)
    requires Carve(s, c, q, kind).Ok? && InRange(x, s[c].value.range)
    ensures Covered(Carve(s, c, q, kind).value.0, x)
  {
    var cand := s[c].value;
    var sp := Split(cand.range, q);
    SplitTiles(cand.range, q);
    CarveResult(s, c, q, kind);
    var s' := Carve(s, c, q, kind).value.0;
    if InRange(x, q) {
      var i :| 0 <= i < |s| && s[i].None? && s'[i] == Some(MemoryDesc(kind, q));
      assert InRange(x, s'[i].value.range);
    } else if InRange(x, Remainders(sp)[0]) {
      assert InRange(x, s'[c].value.range);
    } else {
      assert sp.Triad? && InRange(x, sp.oldHi);
      var i :| 0 <= i < |s| && s[i].None? && s'[i] == Some(MemoryDesc(cand.kind, sp.oldHi));
      assert InRange(x, s'[i].value.range);
    }
  }

  // ---------------------------------------------------------------------
  // allocate_at and allocate

  /** The filter of `allocate_at`: an available region containing the request. */
  function ContainsFilter(q: PhysRange): MemoryDesc -> bool
  {
    (d: MemoryDesc) => d.kind == Available && ContainsRange(d.range, q)
  }

  /** The filter of `allocate`: an available region holding `cnt` aligned pages. */
  function FitFilter(pagesz: Paging.PageSize, cnt: nat): MemoryDesc -> bool
  {
    (d: MemoryDesc) => d.kind == Available && TryGetPages(d.range, pagesz, cnt).Some?
  }

  /** The range `allocate_at` requests: `addr..addr + size * cnt`, in wrapping u64 arithmetic. */
  function RequestedEnd(addr: u64, pagesz: Paging.PageSize, cnt: u64): u64
  {
    Wrap(addr + Wrap(Paging.Bytes(pagesz) * cnt))
  }

  /**
   * `allocate_at`: panics unless `addr` is page aligned (`addr & (size - 1)`
   * is `addr % size` for a power of two) or when the requested range ends
   * before it starts; returns `None`, changing nothing, when no available
   * region contains the request; otherwise carves the request out of the
   * first such region.
   */
  function AllocateAtSpec(s: Slots, addr: u64, pagesz: Paging.PageSize, cnt: u64, kind: MemoryKind)
    : Result<(Slots, Option<MemoryDesc>)>
  {
    if addr % Paging.Bytes(pagesz) != 0 then Err(Misaligned)
    else
      match NewRange(addr, RequestedEnd(addr, pagesz, cnt))
      case Err(e) => Err(e)
      case Ok(q) => ReserveSpec(s, q, kind)
  }

  /**
   * The search and split of `allocate_at` once the request `q` is built:
   * `None`, changing nothing, when no available region contains `q`;
   * otherwise `q` carved out of the first one that does.
   */
  function ReserveSpec(s: Slots, q: PhysRange, kind: MemoryKind): Result<(Slots, Option<MemoryDesc>)>
  {
    match FirstMatch(s, ContainsFilter(q))
    case None => Ok((s, None))
    case Some(c) =>
      match Carve(s, c, q, kind)
      case Err(e) => Err(e)
      case Ok((s', d)) => Ok((s', Some(d)))
  }

  /**
   * `allocate`: finds the first available region in which `try_get_pages`
   * succeeds and carves those pages out of it; returns `None`, changing
   * nothing, when there is none.
   */
  function AllocateSpec(s: Slots, pagesz: Paging.PageSize, cnt: u64, kind: MemoryKind)
    : Result<(Slots, Option<MemoryDesc>)>
  {
    match FirstMatch(s, FitFilter(pagesz, cnt))
    case None => Ok((s, None))
    case Some(c) =>
      var q := TryGetPages(s[c].value.range, pagesz, cnt).value;
      match Carve(s, c, q, kind)
      case Err(e) => Err(e)
      case Ok((s', d)) => Ok((s', Some(d)))
  }

  /** `allocate_at` panics on alignment exactly when the address is not a multiple of the page size. */
  lemma AllocateAtMisaligned(s: Slots, addr: u64, pagesz: Paging.PageSize, cnt: u64, kind: MemoryKind)
    ensures AllocateAtSpec(s, addr, pagesz, cnt, kind) == Err(Misaligned) <==> addr % Paging.Bytes(pagesz) != 0
  {
    if addr % Paging.Bytes(pagesz) == 0 {
      var r := NewRange(addr, RequestedEnd(addr, pagesz, cnt));
      if r.Ok? {
        ReserveFaults(s, r.value, kind);
      }
    }
  }

  /** Once the request is built, the only panic left is a full map. */
  lemma ReserveFaults(s: Slots, q: PhysRange, kind: MemoryKind)
    ensures ReserveSpec(s, q, kind).Err? ==> ReserveSpec(s, q, kind).fault == MapFull
  {
    match FirstMatch(s, ContainsFilter(q))
    case None =>
    case Some(c) => CarveFailsWhenFull(s, c, q, kind);
  }

  /** Without wrap-around the requested range ends `size * cnt` bytes after `addr`. */
  lemma RequestedEndNoWrap(addr: u64, pagesz: Paging.PageSize, cnt: u64)
    requires addr + Paging.Bytes(pagesz) * cnt < U64_LIMIT
    ensures RequestedEnd(addr, pagesz, cnt) == addr + Paging.Bytes(pagesz) * cnt
  {
    var n := Paging.Bytes(pagesz) * cnt;
    assert 0 <= n < U64_LIMIT;
    assert Wrap(n) == n;
  }

  /**
   * The slots after carving `d` out of candidate `c`: `d` sits in a slot that
   * was empty, the candidate keeps the part of its range below or beside
   * `d`, the part above `d` (for a request strictly inside) sits, with the
   * candidate's kind, in another slot that was empty, and every other
   * occupied slot is unchanged.
   */
  ghost predicate CarvedSlots(s: Slots, s': Slots, c: nat, d: MemoryDesc)
    requires c < |s| && s[c].Some?
  {
    var cand := s[c].value;
    var sp := Split(cand.range, d.range);
    && |s'| == |s|
    && ContainsRange(cand.range, d.range)
    && (exists k :: 0 <= k < |s| && s[k].None? && s'[k] == Some(d))
    && s'[c] == Some(cand.(range := Remainders(sp)[0]))
    && (sp.Triad? ==> exists k :: 0 <= k < |s| && s[k].None? && s'[k] == Some(MemoryDesc(cand.kind, sp.oldHi)))
    && (forall j :: 0 <= j < |s| && j != c && s[j].Some? ==> s'[j] == s[j])
  }

  /**
   * For an aligned request that does not wrap around, `allocate_at` hands
   * out exactly `addr..addr + size * cnt` tagged `kind`, taken from the first
   * available region containing it, or returns `None` with the map unchanged
   * when no available region contains it; it can only fail on a full map.
   */
  lemma AllocateAtOutcome(s: Slots, addr: u64, pagesz: Paging.PageSize, cnt: u64, kind: MemoryKind)
    requires addr % Paging.Bytes(pagesz) == 0
    requires addr + Paging.Bytes(pagesz) * cnt < U64_LIMIT
    ensures var r := AllocateAtSpec(s, addr, pagesz, cnt, kind);
      var q := PhysRange(addr, addr + Paging.Bytes(pagesz) * cnt);
      && (r.Err? ==> r.fault == MapFull)
      && (r.Ok? && r.value.1.Some? ==>
            r.value.1.value == MemoryDesc(kind, q)
            && exists c :: 0 <= c < |s| && s[c].Some? && s[c].value.kind == Available
                 && ContainsRange(s[c].value.range, q)
                 && (forall j :: 0 <= j < c ==> s[j].None? || !ContainsFilter(q)(s[j].value))
                 && CarvedSlots(s, r.value.0, c, r.value.1.value))
      && (r.Ok? && r.value.1.None? ==>
            r.value.0 == s && forall j :: 0 <= j < |s| && s[j].Some? ==> !ContainsFilter(q)(s[j].value))
  {
    RequestedEndNoWrap(addr, pagesz, cnt);
    var q := PhysRange(addr, RequestedEnd(addr, pagesz, cnt));
    match FirstMatch(s, ContainsFilter(q))
    case None =>
    case Some(c) =>
      if Carve(s, c, q, kind).Ok? {
        CarveResult(s, c, q, kind);
      } else {
        CarveFailsWhenFull(s, c, q, kind);
      }
  }

  /**
   * `allocate` hands out, tagged `kind`, exactly the pages `try_get_pages`
   * finds in the first available region where it succeeds: aligned to the
   * page size and `cnt` pages long. When it returns `None` the map is
   * unchanged and no available region has room for `cnt` aligned pages
   * anywhere inside it. Its only failure is a full map.
   */
  lemma AllocateOutcome(s: Slots, pagesz: Paging.PageSize, cnt: u64, kind: MemoryKind)
    ensures var r := AllocateSpec(s, pagesz, cnt, kind);
      && (r.Err? ==> r.fault == MapFull)
      && (r.Ok? && r.value.1.Some? ==>
            var d := r.value.1.value;
            && d.kind == kind
            && d.range.start % Paging.Bytes(pagesz) == 0
            && d.range.end - d.range.start == cnt * Paging.Bytes(pagesz)
            && exists c :: 0 <= c < |s| && s[c].Some? && s[c].value.kind == Available
                 && TryGetPages(s[c].value.range, pagesz, cnt) == Some(d.range)
                 && (forall j :: 0 <= j < c ==> s[j].None? || !FitFilter(pagesz, cnt)(s[j].value))
                 && CarvedSlots(s, r.value.0, c, d))
      && (r.Ok? && r.value.1.None? ==>
            && r.value.0 == s
            && forall j, a :: (0 <= j < |s| && s[j].Some? && s[j].value.kind == Available
                 && InRange(a, s[j].value.range) && a % Paging.Bytes(pagesz) == 0) ==>
                 a + cnt * Paging.Bytes(pagesz) > s[j].value.range.end)
  {
    var r := AllocateSpec(s, pagesz, cnt, kind);
    match FirstMatch(s, FitFilter(pagesz, cnt))
    case None =>
      forall j, a | 0 <= j < |s| && s[j].Some? && s[j].value.kind == Available
        && InRange(a, s[j].value.range) && a % Paging.Bytes(pagesz) == 0
        ensures a + cnt * Paging.Bytes(pagesz) > s[j].value.range.end
      {
        assert !FitFilter(pagesz, cnt)(s[j].value);
        if a + cnt * Paging.Bytes(pagesz) <= s[j].value.range.end {
          TryGetPagesFirstFit(s[j].value.range, pagesz, cnt, a);
        }
      }
    case Some(c) =>
      var q := TryGetPages(s[c].value.range, pagesz, cnt).value;
      if Carve(s, c, q, kind).Ok? {
        CarveResult(s, c, q, kind);
      } else {
        CarveFailsWhenFull(s, c, q, kind);
      }
  }

  /** Both allocators keep the map packed, its descriptors disjoint, and the addresses it covers. */
  lemma AllocatePreservesLayout(s: Slots, pagesz: Paging.PageSize, cnt: u64, kind: MemoryKind)
    requires Packed(s) && NonOverlapping(s)
    requires AllocateSpec(s, pagesz, cnt, kind).Ok?
    ensures var s' := AllocateSpec(s, pagesz, cnt, kind).value.0;
      Packed(s') && NonOverlapping(s') && forall x :: Covered(s', x) <==> Covered(s, x)
  {
    match FirstMatch(s, FitFilter(pagesz, cnt))
    case None =>
    case Some(c) =>
      var q := TryGetPages(s[c].value.range, pagesz, cnt).value;
      CarvePreservesPacked(s, c, q, kind);
      CarvePreservesLayout(s, c, q, kind);
  }

  lemma AllocateAtPreservesLayout(s: Slots, addr: u64, pagesz: Paging.PageSize, cnt: u64, kind: MemoryKind)
    requires Packed(s) && NonOverlapping(s)
    requires AllocateAtSpec(s, addr, pagesz, cnt, kind).Ok?
    ensures var s' := AllocateAtSpec(s, addr, pagesz, cnt, kind).value.0;
      Packed(s') && NonOverlapping(s') && forall x :: Covered(s', x) <==> Covered(s, x)
  {
    var q := NewRange(addr, RequestedEnd(addr, pagesz, cnt)).value;
    match FirstMatch(s, ContainsFilter(q))
    case None =>
    case Some(c) =>
      CarvePreservesPacked(s, c, q, kind);
      CarvePreservesLayout(s, c, q, kind);
  }

  /**
   * A region `allocate` hands out is stored in a slot of the new map and
   * shares no address with any other live descriptor there.
   */
  lemma AllocateResultDisjoint(s: Slots, pagesz: Paging.PageSize, cnt: u64, kind: MemoryKind)
    requires Packed(s) && NonOverlapping(s)
    requires AllocateSpec(s, pagesz, cnt, kind).Ok? && AllocateSpec(s, pagesz, cnt, kind).value.1.Some?
    ensures var (s', r) := AllocateSpec(s, pagesz, cnt, kind).value;
      exists k :: 0 <= k < |s'| && s'[k] == Some(r.value)
        && forall j :: 0 <= j < |s'| && j != k && s'[j].Some? ==> Disjoint(r.value.range, s'[j].value.range)
  {
    var c := FirstMatch(s, FitFilter(pagesz, cnt)).value;
    var q := TryGetPages(s[c].value.range, pagesz, cnt).value;
    CarveResult(s, c, q, kind);
    AllocatePreservesLayout(s, pagesz, cnt, kind);
  }

  /**
   * A region `allocate_at` hands out is stored in a slot of the new map and
   * shares no address with any other live descriptor there.
   */
  lemma AllocateAtResultDisjoint(s: Slots, addr: u64, pagesz: Paging.PageSize, cnt: u64, kind: MemoryKind)
    requires Packed(s) && NonOverlapping(s)
    requires AllocateAtSpec(s, addr, pagesz, cnt, kind).Ok? && AllocateAtSpec(s, addr, pagesz, cnt, kind).value.1.Some?
    ensures var (s', r) := AllocateAtSpec(s, addr, pagesz, cnt, kind).value;
      exists k :: 0 <= k < |s'| && s'[k] == Some(r.value)
        && forall j :: 0 <= j < |s'| && j != k && s'[j].Some? ==> Disjoint(r.value.range, s'[j].value.range)
  {
    var q := NewRange(addr, RequestedEnd(addr, pagesz, cnt)).value;
    var c := FirstMatch(s, ContainsFilter(q)).value;
    CarveResult(s, c, q, kind);
    AllocateAtPreservesLayout(s, addr, pagesz, cnt, kind);
  }

  // ---------------------------------------------------------------------
  // init: loading the firmware memory map

  /** One record of the firmware memory map (only the fields the kernel reads). */
  datatype FirmwareDescriptor = FirmwareDescriptor(ty: nat, physStart: u64, pageCount: u64)

  /**
   * The boot arguments' view of the firmware map: its size in bytes, the
   * stride between records, and the record found at each byte offset.
   */
  datatype BootArgs = BootArgs(mapSize: u64, descSize: u64, recordAt: nat -> FirmwareDescriptor)

  /** The records `init` reads: `mapSize / descSize` of them, `descSize` bytes apart. */
  function Records(args: BootArgs): (r: seq<FirmwareDescriptor>)
    requires args.descSize != 0
    ensures |r| == args.mapSize / args.descSize
  {
    seq(args.mapSize / args.descSize, i requires 0 <= i => args.recordAt(RecordOffset(i, args.descSize)))
  }

  /** The byte offset of record `k` from the start of the firmware map. */
  function RecordOffset(k: nat, stride: nat): nat
  {
    k * stride
  }

  lemma RecordAt(args: BootArgs, k: nat)
    requires args.descSize != 0 && k < args.mapSize / args.descSize
    ensures Records(args)[k] == args.recordAt(RecordOffset(k, args.descSize))
  {
  }

  /** A record as a descriptor: `phys_start..phys_start + page_count * 0x1000`, wrapping, of the converted kind. */
  function RecordDesc(rec: FirmwareDescriptor, classify: nat -> MemoryKind): (r: Result<MemoryDesc>)
    ensures r.Ok? ==> r.value.kind == classify(rec.ty) && r.value.range.start == rec.physStart
    ensures r.Ok? ==> WellFormed(r.value.range)
    ensures rec.physStart + rec.pageCount * 0x1000 < U64_LIMIT ==>
      r == Ok(MemoryDesc(classify(rec.ty), PhysRange(rec.physStart, rec.physStart + rec.pageCount * 0x1000)))
  {
    match NewRange(rec.physStart, Wrap(rec.physStart + Wrap(rec.pageCount * 0x1000)))
    case Err(e) => Err(e)
    case Ok(range) => Ok(MemoryDesc(classify(rec.ty), range))
  }

  /**
   * The packed descriptors the `init` loop has written after the given
   * records: each record either merges into the last descriptor or is
   * appended; appending past the last slot panics.
   */
  function Load(recs: seq<FirmwareDescriptor>, classify: nat -> MemoryKind): (r: Result<seq<MemoryDesc>>)
    ensures r.Ok? ==> |r.value| <= |recs| && |r.value| <= NUM_ENTRIES
    ensures r.Ok? && recs != [] ==> |r.value| > 0
    decreases |recs|
  {
    if recs == [] then Ok([])
    else
      match Load(recs[..|recs| - 1], classify)
      case Err(e) => Err(e)
      case Ok(c) =>
        match RecordDesc(recs[|recs| - 1], classify)
        case Err(e) => Err(e)
        case Ok(d) => Coalesce(c, d)
  }

  /**
   * One record's worth of loading: merge `d` into the last descriptor when
   * `try_merge_with` allows, else append it; appending to a full map panics.
   */
  function Coalesce(c: seq<MemoryDesc>, d: MemoryDesc): (r: Result<seq<MemoryDesc>>)
    ensures r.Err? <==> (|c| == 0 || TryMergeWith(c[|c| - 1], d).None?) && |c| >= NUM_ENTRIES
    ensures r.Ok? ==> 0 < |r.value| <= |c| + 1 && |r.value| <= NUM_ENTRIES + (if |c| > NUM_ENTRIES then |c| - NUM_ENTRIES else 0)
    ensures r.Ok? ==> r.value[..|r.value| - 1] == c[..|r.value| - 1]
    ensures r.Ok? && |c| > 0 && TryMergeWith(c[|c| - 1], d).Some? ==> r.value[|r.value| - 1] == TryMergeWith(c[|c| - 1], d).value
    ensures r.Ok? && !(|c| > 0 && TryMergeWith(c[|c| - 1], d).Some?) ==> r.value[|r.value| - 1] == d
  {
    if |c| > 0 && TryMergeWith(c[|c| - 1], d).Some? then Ok(c[..|c| - 1] + [TryMergeWith(c[|c| - 1], d).value])
    else if |c| >= NUM_ENTRIES then Err(SlotOutOfBounds)
    else Ok(c + [d])
  }

  /** The slots after writing `c` into the first `|c|` of them. */
  function Placed(s: Slots, c: seq<MemoryDesc>): (r: Slots)
    requires |c| <= |s|
    ensures |r| == |s|
  {
    seq(|s|, i requires 0 <= i < |s| => if i < |c| then Some(c[i]) else s[i])
  }

  /**
   * `init`: load the firmware records into the first slots, then reserve 32
   * pages of 2 MiB at `KERNEL_PHYS_BASE` as the kernel image; failing to
   * reserve it panics. Dividing by a zero stride panics too.
   */
  function InitSpec(s: Slots, args: BootArgs, classify: nat -> MemoryKind): Result<Slots>
    requires |s| == NUM_ENTRIES
  {
    if args.descSize == 0 then Err(ZeroDescriptorSize)
    else
      match Load(Records(args), classify)
      case Err(e) => Err(e)
      case Ok(c) =>
        match AllocateAtSpec(Placed(s, c), KERNEL_PHYS_BASE, Paging.Size2MiB, 32, KernelImage)
        case Err(e) => Err(e)
        case Ok((s', reserved)) => if reserved.None? then Err(KernelImageNotReserved) else Ok(s')
  }

  /** After loading, no two neighbouring descriptors could still be merged. */
  lemma {:induction false} LoadLeavesNoMergeableNeighbours(recs: seq<FirmwareDescriptor>, classify: nat -> MemoryKind)
    requires Load(recs, classify).Ok?
    ensures var c := Load(recs, classify).value;
      forall i :: 0 <= i < |c| - 1 ==> TryMergeWith(c[i], c[i + 1]).None?
  {
    if recs != [] {
      var init := recs[..|recs| - 1];
      LoadLeavesNoMergeableNeighbours(init, classify);
      var c0 := Load(init, classify).value;
      var c := Load(recs, classify).value;
      var d := RecordDesc(recs[|recs| - 1], classify).value;
      if |c0| > 0 && TryMergeWith(c0[|c0| - 1], d).Some? {
        var m := TryMergeWith(c0[|c0| - 1], d).value;
        forall i | 0 <= i < |c| - 1 ensures TryMergeWith(c[i], c[i + 1]).None? {
          assert c[i] == c0[i];
          if i + 1 < |c0| - 1 {
            assert c[i + 1] == c0[i + 1];
          } else {
            // c[i + 1] is the merged descriptor: it starts where c0's last did.
            assert c[i + 1] == m && m.range.start == c0[|c0| - 1].range.start && m.kind == c0[|c0| - 1].kind;
            assert TryMergeWith(c0[i], c0[i + 1]).None?;
          }
        }
      }
    }
  }

  /** An address lies in the range of one of the records. */
  ghost predicate RecordsCover(recs: seq<FirmwareDescriptor>, classify: nat -> MemoryKind, x: int)
  {
    exists k :: 0 <= k < |recs| && RecordDesc(recs[k], classify).Ok? && InRange(x, RecordDesc(recs[k], classify).value.range)
  }

  /** An address lies in the range of one of the descriptors. */
  ghost predicate DescsCover(c: seq<MemoryDesc>, x: int)
  {
    exists i :: 0 <= i < |c| && InRange(x, c[i].range)
  }

  lemma RecordsCoverSnoc(recs: seq<FirmwareDescriptor>, classify: nat -> MemoryKind, x: int)
    requires recs != []
    ensures var last := RecordDesc(recs[|recs| - 1], classify);
      RecordsCover(recs, classify, x) <==>
      RecordsCover(recs[..|recs| - 1], classify, x) || (last.Ok? && InRange(x, last.value.range))
  {
    var init := recs[..|recs| - 1];
    if RecordsCover(init, classify, x) {
      var k :| 0 <= k < |init| && RecordDesc(init[k], classify).Ok? && InRange(x, RecordDesc(init[k], classify).value.range);
      assert recs[k] == init[k];
    }
    if RecordsCover(recs, classify, x) {
      var k :| 0 <= k < |recs| && RecordDesc(recs[k], classify).Ok? && InRange(x, RecordDesc(recs[k], classify).value.range);
      if k < |init| {
        assert recs[k] == init[k];
      }
    }
  }

  lemma DescsCoverSnoc(c: seq<MemoryDesc>, d: MemoryDesc, x: int)
    ensures DescsCover(c + [d], x) <==> DescsCover(c, x) || InRange(x, d.range)
  {
    if DescsCover(c, x) {
      var i :| 0 <= i < |c| && InRange(x, c[i].range);
      assert (c + [d])[i] == c[i];
    }
    if InRange(x, d.range) {
      assert (c + [d])[|c|] == d;
    }
  }

  /**
   * Loading loses no address and invents none: an address lies in a loaded
   * descriptor exactly when it lies in the range of a record.
   */
  lemma {:induction false} LoadCoversRecords(recs: seq<FirmwareDescriptor>, classify: nat -> MemoryKind, x: int)
    requires Load(recs, classify).Ok?
    ensures DescsCover(Load(recs, classify).value, x) <==> RecordsCover(recs, classify, x)
  {
    if recs != [] {
      var init := recs[..|recs| - 1];
      LoadCoversRecords(init, classify, x);
      RecordsCoverSnoc(recs, classify, x);
      LoadWellFormed(init, classify);
      var c0 := Load(init, classify).value;
      var d := RecordDesc(recs[|recs| - 1], classify).value;
      if |c0| > 0 && TryMergeWith(c0[|c0| - 1], d).Some? {
        var p := c0[..|c0| - 1];
        var last := c0[|c0| - 1];
        var m := TryMergeWith(last, d).value;
        assert c0 == p + [last];
        DescsCoverSnoc(p, last, x);
        DescsCoverSnoc(p, m, x);
        MergeCoversBoth(last, d);
      } else {
        DescsCoverSnoc(c0, d, x);
      }
    }
  }

  /** Every loaded descriptor is well formed. */
  lemma {:induction false} LoadWellFormed(recs: seq<FirmwareDescriptor>, classify: nat -> MemoryKind)
    requires Load(recs, classify).Ok?
    ensures forall i :: 0 <= i < |Load(recs, classify).value| ==> WellFormed(Load(recs, classify).value[i].range)
  {
    if recs != [] {
      LoadWellFormed(recs[..|recs| - 1], classify);
    }
  }

  /** No two records of the firmware map share an address. */
  ghost predicate RecordsDisjoint(recs: seq<FirmwareDescriptor>, classify: nat -> MemoryKind)
  {
    forall i, j :: 0 <= i < j < |recs| && RecordDesc(recs[i], classify).Ok? && RecordDesc(recs[j], classify).Ok? ==>
      Disjoint(RecordDesc(recs[i], classify).value.range, RecordDesc(recs[j], classify).value.range)
  }

  /** No two loaded descriptors share an address. */
  ghost predicate DescsDisjoint(c: seq<MemoryDesc>)
  {
    forall i, j :: 0 <= i < j < |c| ==> Disjoint(c[i].range, c[j].range)
  }

  /** A range disjoint from every record loaded so far is disjoint from every loaded descriptor. */
  lemma LoadAvoidsDisjointRange(recs: seq<FirmwareDescriptor>, classify: nat -> MemoryKind, b: PhysRange)
    requires Load(recs, classify).Ok?
    requires forall k :: 0 <= k < |recs| && RecordDesc(recs[k], classify).Ok? ==>
      Disjoint(RecordDesc(recs[k], classify).value.range, b)
    ensures forall i :: 0 <= i < |Load(recs, classify).value| ==> Disjoint(Load(recs, classify).value[i].range, b)
  {
    var c := Load(recs, classify).value;
    forall i | 0 <= i < |c| ensures Disjoint(c[i].range, b) {
      forall x | InRange(x, c[i].range) ensures !InRange(x, b) {
        LoadCoversRecords(recs, classify, x);
        var k :| 0 <= k < |recs| && RecordDesc(recs[k], classify).Ok? && InRange(x, RecordDesc(recs[k], classify).value.range);
        DisjointMeansNoCommonAddress(RecordDesc(recs[k], classify).value.range, b);
      }
      DisjointMeansNoCommonAddress(c[i].range, b);
    }
  }

  /**
   * Loading records that pairwise share no address gives descriptors that
   * pairwise share no address: merging only joins a descriptor with its
   * adjacent successor.
   */
  lemma {:induction false} LoadKeepsRecordsDisjoint(recs: seq<FirmwareDescriptor>, classify: nat -> MemoryKind)
    requires Load(recs, classify).Ok? && RecordsDisjoint(recs, classify)
    ensures DescsDisjoint(Load(recs, classify).value)
  {
    if recs != [] {
      var init := recs[..|recs| - 1];
      assert RecordsDisjoint(init, classify) by {
        forall i, j | 0 <= i < j < |init| ensures recs[i] == init[i] && recs[j] == init[j] { }
      }
      LoadKeepsRecordsDisjoint(init, classify);
      LoadWellFormed(init, classify);
      var c0 := Load(init, classify).value;
      var d := RecordDesc(recs[|recs| - 1], classify).value;
      forall k | 0 <= k < |init| && RecordDesc(init[k], classify).Ok?
        ensures Disjoint(RecordDesc(init[k], classify).value.range, d.range)
      {
        assert recs[k] == init[k];
      }
      LoadAvoidsDisjointRange(init, classify, d.range);
      var c := Load(recs, classify).value;
      if |c0| > 0 && TryMergeWith(c0[|c0| - 1], d).Some? {
        var last := c0[|c0| - 1];
        var m := TryMergeWith(last, d).value;
        MergeCoversBoth(last, d);
        forall i | 0 <= i < |c0| - 1 ensures Disjoint(c0[i].range, m.range) {
          DisjointMeansNoCommonAddress(c0[i].range, last.range);
          DisjointMeansNoCommonAddress(c0[i].range, d.range);
          DisjointMeansNoCommonAddress(c0[i].range, m.range);
        }
        forall i, j | 0 <= i < j < |c| ensures Disjoint(c[i].range, c[j].range) {
          assert c[i] == c0[i];
          if j < |c| - 1 {
            assert c[j] == c0[j];
          } else {
            assert c[j] == m;
          }
        }
      } else {
        forall i, j | 0 <= i < j < |c| ensures Disjoint(c[i].range, c[j].range) {
          assert c[i] == c0[i];
          if j < |c0| {
            assert c[j] == c0[j];
          } else {
            assert c[j] == d;
          }
        }
      }
    }
  }

  /** Address `x` lies in the range of a record whose converted kind is `kind`. */
  ghost predicate RecordKindAt(recs: seq<FirmwareDescriptor>, classify: nat -> MemoryKind, kind: MemoryKind, x: int)
  {
    exists k :: 0 <= k < |recs| && RecordDesc(recs[k], classify).Ok?
      && InRange(x, RecordDesc(recs[k], classify).value.range) && classify(recs[k].ty) == kind
  }

  /**
   * Loading keeps each record's kind: every address of a loaded descriptor
   * lies in a record whose converted kind is the descriptor's kind.
   */
  lemma {:induction false} LoadKeepsKinds(recs: seq<FirmwareDescriptor>, classify: nat -> MemoryKind)
    requires Load(recs, classify).Ok?
    ensures var c := Load(recs, classify).value;
      forall i, x :: 0 <= i < |c| && InRange(x, c[i].range) ==> RecordKindAt(recs, classify, c[i].kind, x)
  {
    if recs != [] {
      var init := recs[..|recs| - 1];
      LoadKeepsKinds(init, classify);
      var c0 := Load(init, classify).value;
      var c := Load(recs, classify).value;
      var d := RecordDesc(recs[|recs| - 1], classify).value;
      var merged := |c0| > 0 && TryMergeWith(c0[|c0| - 1], d).Some?;
      forall i, x | 0 <= i < |c| && InRange(x, c[i].range) ensures RecordKindAt(recs, classify, c[i].kind, x) {
        if i < |c| - 1 || (!merged && i < |c0|) {
          assert c[i] == c0[i];
          RecordKindAtPrefix(recs, classify, c0[i].kind, x);
        } else if !merged || InRange(x, d.range) {
          assert c[i].kind == d.kind;
          assert InRange(x, RecordDesc(recs[|recs| - 1], classify).value.range);
        } else {
          var j := |c0| - 1;
          assert c[i] == TryMergeWith(c0[j], d).value;
          assert InRange(x, c0[j].range);
          RecordKindAtPrefix(recs, classify, c0[j].kind, x);
        }
      }
    }
  }

  /** A record of all but the last also is a record of the whole sequence. */
  lemma RecordKindAtPrefix(recs: seq<FirmwareDescriptor>, classify: nat -> MemoryKind, kind: MemoryKind, x: int)
    requires recs != [] && RecordKindAt(recs[..|recs| - 1], classify, kind, x)
    ensures RecordKindAt(recs, classify, kind, x)
  {
    var init := recs[..|recs| - 1];
    var k :| 0 <= k < |init| && RecordDesc(init[k], classify).Ok?
      && InRange(x, RecordDesc(init[k], classify).value.range) && classify(init[k].ty) == kind;
    assert recs[k] == init[k];
  }

  /** Two adjacent available records, `0..0x1000` and `0x1000..0x2000`, load as one slot `0..0x2000`. */
  lemma LoadMergesAdjacentRecords(classify: nat -> MemoryKind, ty: nat)
    requires classify(ty) == Available
    ensures Load([FirmwareDescriptor(ty, 0, 1), FirmwareDescriptor(ty, 0x1000, 1)], classify)
         == Ok([MemoryDesc(Available, PhysRange(0, 0x2000))])
  {
    var r0 := FirmwareDescriptor(ty, 0, 1);
    var r1 := FirmwareDescriptor(ty, 0x1000, 1);
    var d0 := MemoryDesc(Available, PhysRange(0, 0x1000));
    var d1 := MemoryDesc(Available, PhysRange(0x1000, 0x2000));
    assert [r0][..0] == [];
    assert RecordDesc(r0, classify) == Ok(d0);
    assert Load([r0], classify) == Ok([] + [d0]);
    assert [r0, r1][..1] == [r0];
    assert RecordDesc(r1, classify) == Ok(d1);
    var m := MemoryDesc(Available, PhysRange(0, 0x2000));
    assert TryMergeWith(d0, d1) == Some(m);
    var c := [] + [d0];
    assert c[..|c| - 1] + [m] == [m];
    assert Load([r0, r1], classify) == Ok(c[..|c| - 1] + [m]);
  }

  /** Loaded descriptors placed into empty slots form a packed map. */
  lemma PlacedIntoEmptyIsPacked(s: Slots, c: seq<MemoryDesc>)
    requires |c| <= |s| && forall i :: 0 <= i < |s| ==> s[i].None?
    ensures Packed(Placed(s, c))
  {
  }

  /** Pairwise disjoint, well-formed descriptors placed into empty slots share no address and cover what they covered. */
  lemma PlacedIntoEmptyLayout(s: Slots, c: seq<MemoryDesc>)
    requires |c| <= |s| && forall i :: 0 <= i < |s| ==> s[i].None?
    requires DescsDisjoint(c) && forall i :: 0 <= i < |c| ==> WellFormed(c[i].range)
    ensures NonOverlapping(Placed(s, c))
    ensures forall x :: Covered(Placed(s, c), x) <==> DescsCover(c, x)
  {
    var p := Placed(s, c);
    forall i, j | 0 <= i < |p| && 0 <= j < |p| && i != j && p[i].Some? && p[j].Some?
      ensures Disjoint(p[i].value.range, p[j].value.range)
    {
      if i < j {
        assert Disjoint(c[i].range, c[j].range);
      } else {
        assert Disjoint(c[j].range, c[i].range);
      }
    }
    forall x ensures Covered(p, x) <==> DescsCover(c, x) {
      if DescsCover(c, x) {
        var i :| 0 <= i < |c| && InRange(x, c[i].range);
        assert p[i] == Some(c[i]);
      }
    }
  }

  /**
   * From an empty map, a successful `init` leaves the occupied slots packed
   * and holds the kernel image region `0x400_0000..0x800_0000`. When no two
   * firmware records share an address, no two descriptors of the new map
   * do, and the map covers exactly the addresses of the records.
   */
  lemma InitFromEmpty(s: Slots, args: BootArgs, classify: nat -> MemoryKind)
    requires |s| == NUM_ENTRIES && forall i :: 0 <= i < |s| ==> s[i].None?
    requires InitSpec(s, args, classify).Ok?
    ensures var s' := InitSpec(s, args, classify).value;
      && Packed(s')
      && (exists i :: 0 <= i < |s'| && s'[i] == Some(MemoryDesc(KernelImage, PhysRange(0x400_0000, 0x800_0000))))
      && (RecordsDisjoint(Records(args), classify) ==>
            NonOverlapping(s') && forall x :: Covered(s', x) <==> RecordsCover(Records(args), classify, x))
      && (forall j, x :: 0 <= j < |s'| && s'[j].Some? && InRange(x, s'[j].value.range) && !(0x400_0000 <= x < 0x800_0000) ==>
            RecordKindAt(Records(args), classify, s'[j].value.kind, x))
  {
    var c := Load(Records(args), classify).value;
    var s1 := Placed(s, c);
    PlacedIntoEmptyIsPacked(s, c);
    AllocateAtOutcome(s1, KERNEL_PHYS_BASE, Paging.Size2MiB, 32, KernelImage);
    RequestedEndNoWrap(KERNEL_PHYS_BASE, Paging.Size2MiB, 32);
    var q := NewRange(KERNEL_PHYS_BASE, RequestedEnd(KERNEL_PHYS_BASE, Paging.Size2MiB, 32)).value;
    var cidx := FirstMatch(s1, ContainsFilter(q)).value;
    CarvePreservesPacked(s1, cidx, q, KernelImage);
    CarveResult(s1, cidx, q, KernelImage);
    var s' := InitSpec(s, args, classify).value;
    LoadKeepsKinds(Records(args), classify);
    forall j, x | 0 <= j < |s'| && s'[j].Some? && InRange(x, s'[j].value.range) && !(0x400_0000 <= x < 0x800_0000)
      ensures RecordKindAt(Records(args), classify, s'[j].value.kind, x)
    {
      CarveSlotKind(s1, cidx, q, KernelImage, j);
      if s1[j].Some? && j != cidx && s'[j] == s1[j] {
        assert s1[j] == Some(c[j]);
      } else {
        assert s'[j] != Some(MemoryDesc(KernelImage, q));
        assert s1[cidx] == Some(c[cidx]) && InRange(x, c[cidx].range);
      }
    }
    if RecordsDisjoint(Records(args), classify) {
      LoadKeepsRecordsDisjoint(Records(args), classify);
      LoadWellFormed(Records(args), classify);
      PlacedIntoEmptyLayout(s, c);
      AllocateAtPreservesLayout(s1, KERNEL_PHYS_BASE, Paging.Size2MiB, 32, KernelImage);
      forall x ensures DescsCover(c, x) <==> RecordsCover(Records(args), classify, x) {
        LoadCoversRecords(Records(args), classify, x);
      }
    }
  }
}
