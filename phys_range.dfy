// Operations on physical ranges and descriptors that the kernel's memory map
// relies on: construction, containment, splitting a region around a
// sub-range, finding aligned pages in a region, and merging neighbours.
// They are given here by what their callers in the kernel need of them.

module PhysRanges {
  import opened Prelude
  import opened PhysMem
  import Paging

  /** `PhysRange::new`: a range must not end before it starts. */
  function NewRange(start: u64, end: u64): (r: Result<PhysRange>)
    ensures r.Ok? <==> start <= end
    ensures r.Ok? ==> r.value.start == start && r.value.end == end
  {
    if end < start then Err(RangeInverted) else Ok(PhysRange(start, end))
  }

  predicate WellFormed(r: PhysRange) { r.start <= r.end }

  predicate InRange(x: int, r: PhysRange) { r.start <= x < r.end }

  predicate ContainsRange(r: PhysRange, other: PhysRange)
  {
    r.start <= other.start && other.end <= r.end
  }

  /** Containment of well-formed ranges is containment of their addresses. */
  lemma ContainsRangeMeansSubset(r: PhysRange, other: PhysRange)
    requires WellFormed(other) && other.start < other.end
    ensures ContainsRange(r, other) <==> forall x :: InRange(x, other) ==> InRange(x, r)
  {
    if forall x :: InRange(x, other) ==> InRange(x, r) {
      assert InRange(other.start, other);
      assert InRange(other.end - 1, other);
    }
  }

  /** The pieces a region is cut into around a requested sub-range. */
  datatype PhysRangeSet =
    | Pair(oldPart: PhysRange, newPart: PhysRange)
    | Triad(oldLo: PhysRange, newPart: PhysRange, oldHi: PhysRange)
    | Invalid

  /**
   * `split`: `Pair` when the sub-range touches one end of the region (the
   * region keeps the rest), `Triad` when it lies strictly inside, `Invalid`
   * when it is not contained.
   */
  function Split(r: PhysRange, other: PhysRange): (s: PhysRangeSet)
    ensures s.Invalid? <==> !ContainsRange(r, other)
    ensures s.Pair? <==> ContainsRange(r, other) && (other.start == r.start || other.end == r.end)
    ensures s.Triad? <==> ContainsRange(r, other) && r.start < other.start && other.end < r.end
    ensures !s.Invalid? ==> s.newPart == other
  {
    if !ContainsRange(r, other) then PhysRangeSet.Invalid
    else if other.start == r.start then Pair(PhysRange(other.end, r.end), other)
    else if other.end == r.end then Pair(PhysRange(r.start, other.start), other)
    else Triad(PhysRange(r.start, other.start), other, PhysRange(other.end, r.end))
  }

  /** The pieces left to the region after a split. */
  function Remainders(s: PhysRangeSet): seq<PhysRange>
  {
    match s
    case Pair(o, _) => [o]
    case Triad(lo, _, hi) => [lo, hi]
    case Invalid => []
  }

  /**
   * A split tiles the region: every piece is well formed and inside it, and
   * every address of the region lies in exactly one piece.
   */
  lemma SplitTiles(r: PhysRange, other: PhysRange)
    requires ContainsRange(r, other) && WellFormed(other)
    ensures var s := Split(r, other);
      && (forall p | p in Remainders(s) :: WellFormed(p) && ContainsRange(r, p))
      && (forall x :: InRange(x, r) <==> InRange(x, other) || exists p | p in Remainders(s) :: InRange(x, p))
      && (forall x, p | p in Remainders(s) && InRange(x, p) :: !InRange(x, other))
      && (s.Triad? ==> forall x :: !(InRange(x, s.oldLo) && InRange(x, s.oldHi)))
  {
    var s := Split(r, other);
    forall x | InRange(x, r) && !InRange(x, other)
      ensures exists p | p in Remainders(s) :: InRange(x, p)
    {
      if x < other.start {
        assert InRange(x, Remainders(s)[0]);
      } else {
        assert InRange(x, Remainders(s)[|Remainders(s)| - 1]);
      }
    }
  }

  /** The lowest multiple of the page size at or above `x`. */
  function AlignUp(x: int, pagesz: Paging.PageSize): (a: int)
    requires x >= 0
    ensures a >= x && a % Paging.Bytes(pagesz) == 0 && a - x < Paging.Bytes(pagesz)
  {
    var u := Paging.Bytes(pagesz);
    RoundUpFacts(x, u, x);
    (x + u - 1) / u * u
  }

  /**
   * Rounding `x` up to a multiple of `u` lands on a multiple less than `u`
   * above `x`, and at or below every multiple `a` at or above `x`.
   */
  lemma RoundUpFacts(x: int, u: int, a: int)
    requires x >= 0 && u > 0
    ensures var b := (x + u - 1) / u * u;
      b >= x && b % u == 0 && b - x < u && (a >= x && a % u == 0 ==> b <= a)
  {
    var q := (x + u - 1) / u;
    var b := q * u;
    assert b == x + u - 1 - (x + u - 1) % u;
    DivModUnique(b, q, 0, u);
    if a >= x && a % u == 0 {
      var k := a / u;
      assert a == k * u;
      FactorAbove(k, q, u);
    }
  }

  /** A multiple of `u` above the one just below `q * u` is at least `q * u`. */
  lemma FactorAbove(k: int, q: int, u: int)
    requires u > 0 && k * u > q * u - u
    ensures k * u >= q * u
  {
    var d := k - q + 1;
    assert d * u == k * u - q * u + u;
    assert d >= 1;
    MulAtLeast(d, u);
  }

  /**
   * `try_get_pages`: the first `count` pages of the given size in the region,
   * starting at the region's first aligned address, if that address lies
   * inside the region and the pages fit before its end.
   */
  function TryGetPages(r: PhysRange, pagesz: Paging.PageSize, count: nat): (q: Option<PhysRange>)
    ensures q.Some? ==> ContainsRange(r, q.value) && WellFormed(q.value)
    ensures q.Some? ==> q.value.start % Paging.Bytes(pagesz) == 0
    ensures q.Some? ==> q.value.end - q.value.start == count * Paging.Bytes(pagesz)
  {
    var a := AlignUp(r.start, pagesz);
    if a < r.end && count * Paging.Bytes(pagesz) <= r.end - a
    then Some(PhysRange(a, a + count * Paging.Bytes(pagesz)))
    else None
  }

  /**
   * The pages found are the lowest aligned ones in the region, and when none
   * are found no aligned run of that length starting inside the region fits.
   */
  lemma TryGetPagesFirstFit(r: PhysRange, pagesz: Paging.PageSize, count: nat, a: int)
    requires InRange(a, r) && a % Paging.Bytes(pagesz) == 0 && a + count * Paging.Bytes(pagesz) <= r.end
    ensures TryGetPages(r, pagesz, count).Some?
    ensures TryGetPages(r, pagesz, count).value.start <= a
  {
    var sz := Paging.Bytes(pagesz);
    var b := AlignUp(r.start, pagesz);
    AlignedBetween(r.start, b, a, pagesz);
  }

  /** An aligned address at or above `x` is at or above `x` rounded up. */
  lemma AlignedBetween(x: int, b: int, a: int, pagesz: Paging.PageSize)
    requires x >= 0 && b == AlignUp(x, pagesz)
    requires a >= x && a % Paging.Bytes(pagesz) == 0
    ensures b <= a
  {
    RoundUpFacts(x, Paging.Bytes(pagesz), a);
  }

  /** `try_merge_with`: two descriptors of one kind where the first ends as the second starts. */
  function TryMergeWith(a: MemoryDesc, b: MemoryDesc): (m: Option<MemoryDesc>)
    ensures m.Some? <==> a.kind == b.kind && a.range.end == b.range.start
    ensures m.Some? ==> m.value.kind == a.kind && m.value.range == PhysRange(a.range.start, b.range.end)
  {
    if a.kind == b.kind && a.range.end == b.range.start
    then Some(MemoryDesc(a.kind, PhysRange(a.range.start, b.range.end)))
    else None
  }

  /** A merged descriptor covers exactly the addresses of the two it merges. */
  lemma MergeCoversBoth(a: MemoryDesc, b: MemoryDesc)
    requires WellFormed(a.range) && WellFormed(b.range)
    requires TryMergeWith(a, b).Some?
    ensures var m := TryMergeWith(a, b).value;
      WellFormed(m.range) &&
      forall x :: InRange(x, m.range) <==> InRange(x, a.range) || InRange(x, b.range)
  {
  }
}
