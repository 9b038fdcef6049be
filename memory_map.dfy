// The kernel's physical memory map as an object: a fixed array of 128
// optional descriptors, updated in place. Each method is proved to leave the
// array exactly as the corresponding function of memory_slots.dfy says.

module MemoryMap {
  import opened Prelude
  import opened PhysMem
  import opened PhysRanges
  import opened MemorySlots
  import Paging

  class MrldMemoryMap {
    var entries: array<Option<MemoryDesc>>

    ghost predicate Valid()
      reads this
    {
      entries.Length == NUM_ENTRIES
    }

    /** `new_empty`: every slot empty. */
    constructor NewEmpty()
      ensures Valid() && fresh(entries)
      ensures forall i :: 0 <= i < entries.Length ==> entries[i].None?
    {
      entries := new Option<MemoryDesc>[NUM_ENTRIES](_ => None);
    }

    /**
     * `get_mut`: the slot at `idx`; an index past the last slot panics. The
     * reference the source hands out is modelled by the slot's contents;
     * callers write the slot directly.
     */
    method GetMut(idx: nat) returns (e: Result<Option<MemoryDesc>>)
      requires Valid()
      ensures e.Err? <==> idx >= NUM_ENTRIES
      ensures e.Err? ==> e.fault == IndexOutOfBounds
      ensures e.Ok? ==> e.value == entries[idx]
    {
      if idx >= NUM_ENTRIES {
        return Err(IndexOutOfBounds);
      }
      e := Ok(entries[idx]);
    }

    /** `invalidate`: empty the slot at `idx`; an index past the last slot panics. */
    method Invalidate(idx: nat) returns (r: Result<()>)
      requires Valid()
      modifies entries
      ensures r.Err? <==> idx >= NUM_ENTRIES
      ensures r.Err? ==> r.fault == IndexOutOfBounds && entries[..] == old(entries[..])
      ensures r.Ok? ==> entries[..] == old(entries[..])[idx := None]
    {
      if idx >= NUM_ENTRIES {
        return Err(IndexOutOfBounds);
      }
      entries[idx] := None;
      return Ok(());
    }

    /** `iter_valid`: the descriptors of the occupied slots, in slot order. */
    method IterValid() returns (live: seq<MemoryDesc>)
      requires Valid()
      ensures live == LiveEntries(entries[..])
    {
      live := [];
      var i := 0;
      while i < entries.Length
        invariant 0 <= i <= entries.Length
        invariant live + LiveEntries(entries[i..]) == LiveEntries(entries[..])
      {
        assert entries[i..][1..] == entries[i + 1..];
        if entries[i].Some? {
          live := live + [entries[i].value];
        }
        i := i + 1;
      }
      assert entries[i..] == [];
    }

    /**
     * `find_with`: `iter_valid().find(f)`, the first live descriptor that
     * satisfies `f`, which is the one in the first matching slot.
     */
    method FindWith(f: MemoryDesc -> bool) returns (r: Option<MemoryDesc>)
      requires Valid()
      ensures r == FindFirst(LiveEntries(entries[..]), f)
      ensures r == (match FirstMatch(entries[..], f) case None => None case Some(k) => Some(entries[k].value))
    {
      FirstMatchIsFirstLive(entries[..], f);
      var live := IterValid();
      var j := 0;
      while j < |live|
        invariant 0 <= j <= |live|
        invariant forall m :: 0 <= m < j ==> !f(live[m])
      {
        if f(live[j]) {
          FindFirstAt(live, f, j);
          return Some(live[j]);
        }
        j := j + 1;
      }
      return None;
    }

    /**
     * `find_mut_with`: the first occupied slot whose descriptor satisfies
     * `f`. The mutable reference the source returns is modelled by the slot's
     * index.
     */
    method FindMutWith(f: MemoryDesc -> bool) returns (idx: Option<nat>)
      requires Valid()
      ensures idx == FirstMatch(entries[..], f)
      ensures idx.Some? ==> idx.value < NUM_ENTRIES && entries[idx.value].Some? && f(entries[idx.value].value)
    {
      var i := 0;
      while i < entries.Length
        invariant 0 <= i <= entries.Length
        invariant forall j :: 0 <= j < i ==> entries[j].None? || !f(entries[j].value)
      {
        if entries[i].Some? && f(entries[i].value) {
          FirstMatchAt(entries[..], f, i);
          return Some(i);
        }
        i := i + 1;
      }
      assert forall j :: 0 <= j < |entries[..]| ==> entries[..][j].None? || !f(entries[..][j].value);
      return None;
    }

    /** `allocate_new_region`: store `desc` in the lowest empty slot; panic when every slot is occupied. */
    method AllocateNewRegion(desc: MemoryDesc) returns (r: Result<()>)
      requires Valid()
      modifies entries
      ensures r.Ok? <==> InsertNew(old(entries[..]), desc).Ok?
      ensures r.Ok? ==> entries[..] == InsertNew(old(entries[..]), desc).value
      ensures r.Err? ==> r.fault == MapFull
    {
      var i := 0;
      while i < entries.Length
        invariant 0 <= i <= entries.Length
        invariant forall j :: 0 <= j < i ==> entries[j].Some?
      {
        if entries[i].None? {
          FirstFreeAt(entries[..], i);
          entries[i] := Some(desc);
          return Ok(());
        }
        i := i + 1;
      }
      return Err(MapFull);
    }

    /**
     * The split handling of `allocate` and `allocate_at` once a candidate slot
     * `c` is found: shrink the candidate, then insert the request and, for a
     * triad, the upper remainder with the candidate's kind.
     */
    method SplitCandidate(c: nat, q: PhysRange, kind: MemoryKind) returns (r: Result<MemoryDesc>)
      requires Valid() && c < NUM_ENTRIES && entries[c].Some? && ContainsRange(entries[c].value.range, q)
      modifies entries
      ensures var spec := Carve(old(entries[..]), c, q, kind);
        && (spec.Err? ==> r == Err(spec.fault))
        && (spec.Ok? ==> r == Ok(spec.value.1) && entries[..] == spec.value.0)
    {
      var cand := entries[c].value;
      match Split(cand.range, q)
      case Pair(rest, request) =>
        entries[c] := Some(cand.(range := rest));
        var newDesc := MemoryDesc(kind, request);
        var ok := AllocateNewRegion(newDesc);
        if ok.Err? {
          return Err(ok.fault);
        }
        return Ok(newDesc);
      case Triad(lo, request, hi) =>
        entries[c] := Some(cand.(range := lo));
        var newDesc := MemoryDesc(kind, request);
        var newDescHi := MemoryDesc(entries[c].value.kind, hi);
        var ok := AllocateNewRegion(newDesc);
        if ok.Err? {
          return Err(ok.fault);
        }
        ok := AllocateNewRegion(newDescHi);
        if ok.Err? {
          return Err(ok.fault);
        }
        return Ok(newDesc);
    }

    /** `allocate_at`: reserve `cnt` pages at `addr` out of the available region containing them. */
    method AllocateAt(addr: u64, pagesz: Paging.PageSize, cnt: u64, kind: MemoryKind)
      returns (r: Result<Option<MemoryDesc>>)
      requires Valid()
      modifies entries
      ensures var spec := AllocateAtSpec(old(entries[..]), addr, pagesz, cnt, kind);
        && (spec.Err? ==> r == Err(spec.fault))
        && (spec.Ok? ==> r == Ok(spec.value.1) && entries[..] == spec.value.0)
    {
      var size := Paging.Bytes(pagesz);
      if addr % size != 0 {
        return Err(Misaligned);
      }
      var requested := NewRange(addr, RequestedEnd(addr, pagesz, cnt));
      if requested.Err? {
        return Err(requested.fault);
      }
      r := Reserve(requested.value, kind);
    }

    /** The search and split of `allocate_at` for the request `q`. */
    method Reserve(q: PhysRange, kind: MemoryKind) returns (r: Result<Option<MemoryDesc>>)
      requires Valid()
      modifies entries
      ensures var spec := ReserveSpec(old(entries[..]), q, kind);
        && (spec.Err? ==> r == Err(spec.fault))
        && (spec.Ok? ==> r == Ok(spec.value.1) && entries[..] == spec.value.0)
    {
      var candidate := FindMutWith(ContainsFilter(q));
      if candidate.None? {
        return Ok(None);
      }
      var d := SplitCandidate(candidate.value, q, kind);
      if d.Err? {
        return Err(d.fault);
      }
      return Ok(Some(d.value));
    }

    /** `allocate`: take `cnt` aligned pages from the first available region that has room. */
    method Allocate(pagesz: Paging.PageSize, cnt: u64, kind: MemoryKind)
      returns (r: Result<Option<MemoryDesc>>)
      requires Valid()
      modifies entries
      ensures var spec := AllocateSpec(old(entries[..]), pagesz, cnt, kind);
        && (spec.Err? ==> r == Err(spec.fault))
        && (spec.Ok? ==> r == Ok(spec.value.1) && entries[..] == spec.value.0)
    {
      var candidate := FindMutWith(FitFilter(pagesz, cnt));
      if candidate.None? {
        return Ok(None);
      }
      var c := candidate.value;
      var q := TryGetPages(entries[c].value.range, pagesz, cnt).value;
      var d := SplitCandidate(c, q, kind);
      if d.Err? {
        return Err(d.fault);
      }
      return Ok(Some(d.value));
    }

    /**
     * `init`: copy the firmware's records into the first slots, merging each
     * into the previous one where possible, then reserve the kernel image.
     */
    method Init(args: BootArgs, classify: nat -> MemoryKind) returns (r: Result<()>)
      requires Valid()
      modifies entries
      ensures var spec := InitSpec(old(entries[..]), args, classify);
        && (spec.Err? ==> r == Err(spec.fault))
        && (spec.Ok? ==> r.Ok? && entries[..] == spec.value)
    {
      if args.descSize == 0 {
        return Err(ZeroDescriptorSize);
      }
      var loaded := LoadFirmwareMap(args, classify);
      if loaded.Err? {
        return Err(loaded.fault);
      }
      var reserved := AllocateAt(KERNEL_PHYS_BASE, Paging.Size2MiB, 32, KernelImage);
      if reserved.Err? {
        return Err(reserved.fault);
      }
      if reserved.value.None? {
        return Err(KernelImageNotReserved);
      }
      return Ok(());
    }

    /**
     * The loop of `init`: read `mapSize / descSize` records `descSize` bytes
     * apart; merge each into the previously written descriptor when
     * `try_merge_with` allows, otherwise write it to the next slot.
     */
    method LoadFirmwareMap(args: BootArgs, classify: nat -> MemoryKind) returns (r: Result<()>)
      requires Valid() && args.descSize != 0
      modifies entries
      ensures var spec := Load(Records(args), classify);
        && (spec.Err? ==> r == Err(spec.fault))
        && (spec.Ok? ==> r.Ok? && entries[..] == Placed(old(entries[..]), spec.value))
    {
      var numEntries := args.mapSize / args.descSize;
      ghost var recs := Records(args);
      ghost var s0 := entries[..];
      ghost var loaded: seq<MemoryDesc> := [];
      var prev: Option<(nat, MemoryDesc)> := None;
      var pidx: nat := 0;
      var uidx: nat := 0;
      while uidx < numEntries
        invariant uidx <= numEntries
        invariant Load(recs[..uidx], classify) == Ok(loaded)
        invariant pidx == |loaded| <= NUM_ENTRIES
        invariant entries[..] == Placed(s0, loaded)
        invariant prev.None? <==> pidx == 0
        invariant prev.Some? ==> prev.value == (pidx - 1, loaded[pidx - 1])
      {
        RecordAt(args, uidx);
        var rec := args.recordAt(RecordOffset(uidx, args.descSize));
        var converted := RecordDesc(rec, classify);
        if converted.Err? {
          LoadStepRejected(recs, uidx, classify);
          return Err(converted.fault);
        }
        LoadStep(recs, uidx, classify);
        ghost var next := Coalesce(loaded, converted.value);
        assert Load(recs[..uidx + 1], classify) == next;
        var stored;
        prev, pidx, stored := StoreRecord(converted.value, prev, pidx, s0, loaded);
        if stored.Err? {
          LoadErrPersists(recs, uidx + 1, classify);
          return Err(stored.fault);
        }
        loaded := next.value;
        uidx := uidx + 1;
      }
      assert recs[..uidx] == recs;
      return Ok(());
    }

    /**
     * The body of the `init` loop for one converted record: overwrite the
     * previously written slot with the merge when `try_merge_with` allows,
     * otherwise write the record to slot `pidx` (panicking past the last
     * slot) and advance.
     */
    method StoreRecord(desc: MemoryDesc, prev: Option<(nat, MemoryDesc)>, pidx: nat,
                       ghost s0: Slots, ghost loaded: seq<MemoryDesc>)
      returns (prev': Option<(nat, MemoryDesc)>, pidx': nat, r: Result<()>)
      requires Valid() && |s0| == NUM_ENTRIES
      requires pidx == |loaded| <= NUM_ENTRIES && entries[..] == Placed(s0, loaded)
      requires prev.None? <==> pidx == 0
      requires prev.Some? ==> prev.value == (pidx - 1, loaded[pidx - 1])
      modifies entries
      ensures var spec := Coalesce(loaded, desc);
        && (spec.Err? ==> r == Err(spec.fault))
        && (spec.Ok? ==>
              && r.Ok? && pidx' == |spec.value| <= NUM_ENTRIES && entries[..] == Placed(s0, spec.value)
              && prev'.Some? && prev'.value == (pidx' - 1, spec.value[pidx' - 1]))
    {
      var merged := if prev.Some? then TryMergeWith(prev.value.1, desc) else None;
      if merged.Some? {
        var idx := prev.value.0;
        PlacedReplaceLast(s0, loaded, merged.value);
        entries[idx] := merged;
        return Some((idx, merged.value)), pidx, Ok(());
      }
      if pidx >= NUM_ENTRIES {
        return prev, pidx, Err(SlotOutOfBounds);
      }
      PlacedAppend(s0, loaded, desc);
      entries[pidx] := Some(desc);
      return Some((pidx, desc)), pidx + 1, Ok(());
    }
  }

  /** A panic while loading a prefix of the records ends the whole load with that panic. */
  lemma {:induction false} LoadErrPersists(recs: seq<FirmwareDescriptor>, k: nat, classify: nat -> MemoryKind)
    requires k <= |recs| && Load(recs[..k], classify).Err?
    ensures Load(recs, classify) == Err(Load(recs[..k], classify).fault)
    decreases |recs| - k
  {
    if k < |recs| {
      assert recs[..k + 1][..k] == recs[..k];
      LoadErrPersists(recs, k + 1, classify);
    } else {
      assert recs[..k] == recs;
    }
  }

  // One step of the `init` loop, one lemma per outcome.

  lemma LoadStepRejected(recs: seq<FirmwareDescriptor>, k: nat, classify: nat -> MemoryKind)
    requires k < |recs| && Load(recs[..k], classify).Ok? && RecordDesc(recs[k], classify).Err?
    ensures Load(recs, classify) == Err(RecordDesc(recs[k], classify).fault)
  {
    assert recs[..k + 1][..k] == recs[..k];
    LoadErrPersists(recs, k + 1, classify);
  }

  lemma LoadStep(recs: seq<FirmwareDescriptor>, k: nat, classify: nat -> MemoryKind)
    requires k < |recs| && Load(recs[..k], classify).Ok? && RecordDesc(recs[k], classify).Ok?
    ensures Load(recs[..k + 1], classify) == Coalesce(Load(recs[..k], classify).value, RecordDesc(recs[k], classify).value)
  {
    assert recs[..k + 1][..k] == recs[..k];
  }

  /** A slot that matches, after none that do, is the first match. */
  lemma FirstMatchAt(s: Slots, f: MemoryDesc -> bool, i: nat)
    requires i < |s| && s[i].Some? && f(s[i].value)
    requires forall j :: 0 <= j < i ==> s[j].None? || !f(s[j].value)
    ensures FirstMatch(s, f) == Some(i)
  {
  }

  /** An empty slot after only occupied ones is the lowest free slot. */
  lemma FirstFreeAt(s: Slots, i: nat)
    requires i < |s| && s[i].None?
    requires forall j :: 0 <= j < i ==> s[j].Some?
    ensures FirstFree(s) == Some(i)
  {
  }

  /** An element that satisfies `f`, after none that do, is what `find` returns. */
  lemma {:induction false} FindFirstAt(xs: seq<MemoryDesc>, f: MemoryDesc -> bool, j: nat)
    requires j < |xs| && f(xs[j])
    requires forall m :: 0 <= m < j ==> !f(xs[m])
    ensures FindFirst(xs, f) == Some(xs[j])
  {
    if j > 0 {
      FindFirstAt(xs[1..], f, j - 1);
    }
  }

  lemma PlacedAppend(s: Slots, c: seq<MemoryDesc>, d: MemoryDesc)
    requires |c| < |s|
    ensures Placed(s, c + [d]) == Placed(s, c)[|c| := Some(d)]
  {
  }

  lemma PlacedReplaceLast(s: Slots, c: seq<MemoryDesc>, m: MemoryDesc)
    requires 0 < |c| <= |s|
    ensures Placed(s, c[..|c| - 1] + [m]) == Placed(s, c)[|c| - 1 := Some(m)]
  {
  }
}
