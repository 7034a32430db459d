/** `BuddyAllocatorManager` of
    `kernel/src/arch/x86_64/memory/frame_allocator/buddy.rs`: one buddy
    allocator for each available region of the memory map, kept in a
    fixed-size table and tried in table order. Each allocator is the value
    `AllocState` of module `BuddyRegion`; the manager owns the table and
    the total `remaining` byte count. */
module BuddyManager {
  import opened Base
  import opened BuddyLayout
  import opened BuddyRegion
  import BootFrames

  type Table = seq<Option<AllocState>>

  /** Every allocator in the table has a bitmap of the right length. */
  predicate Shaped(es: Table)
  {
    forall i :: 0 <= i < |es| && es[i].Some? ==>
      es[i].value.layers >= 1 && |es[i].value.bits| == Size(es[i].value.layers)
  }

  /** Every allocator in the table is consistent. */
  ghost predicate AllConsistent(es: Table)
  {
    forall i :: 0 <= i < |es| && es[i].Some? ==> StateConsistent(es[i].value)
  }

  /** The `remaining` count of a table slot (0 for an empty one). */
  function Count(o: Option<AllocState>): int
  {
    if o.Some? then o.value.remaining else 0
  }

  /** The sum of the allocators' `remaining` counts. */
  function Total(es: Table): int
  {
    if es == [] then 0 else Count(es[0]) + Total(es[1..])
  }

  /** Replacing one slot changes the sum by the change of its count. */
  lemma {:induction false} TotalUpdate(es: Table, i: nat, x: Option<AllocState>)
    requires i < |es|
    ensures Total(es[i := x]) == Total(es) - Count(es[i]) + Count(x)
  {
    if i == 0 {
      assert es[i := x][1..] == es[1..];
    } else {
      assert es[i := x][1..] == es[1..][i - 1 := x];
      TotalUpdate(es[1..], i - 1, x);
    }
  }

  /** With consistent allocators every count is non-negative, so the sum
      is at least the count of any one of them. */
  lemma {:induction false} TotalAtLeast(es: Table, j: nat)
    requires AllConsistent(es) && j < |es| && es[j].Some?
    ensures Total(es) >= es[j].value.remaining >= 0
  {
    TotalNonNegative(es[1..]);
    if j > 0 {
      TotalAtLeast(es[1..], j - 1);
    }
  }

  lemma {:induction false} TotalNonNegative(es: Table)
    requires AllConsistent(es)
    ensures Total(es) >= 0
  {
    if es != [] {
      TotalNonNegative(es[1..]);
    }
  }

  /** Frame size in bytes of a frame of 2^k pages. */
  function FrameBytes(k: nat): nat
  {
    PAGE_SIZE * Pow2(k)
  }

  /** The loop of `allocate_frame` from table position `i` on: each
      present allocator is asked in turn; the first frame found ends the
      loop, and a panic of an allocator ends it too. */
  function AllocFrom(es: Table, i: nat, k: nat): (r: (Run<Option<nat>>, Table))
    requires Shaped(es) && i <= |es|
    ensures |r.1| == |es| && Shaped(r.1)
    decreases |es| - i
  {
    if i == |es| then (Returns(None), es)
    else if es[i].None? then AllocFrom(es, i + 1, k)
    else
      var step := FrameStep(es[i].value, k);
      var es' := es[i := Some(step.1)];
      if step.0.Panics? || step.0.value.Some? then (step.0, es')
      else AllocFrom(es', i + 1, k)
  }

  /** The allocators from position `i` on are tried in order: "no frame"
      means every one of them had none and nothing changed; a frame comes
      from the first allocator that had one, exactly as that allocator
      hands it out, and only that allocator changes; the sum of the counts
      falls by the frame size; every allocator stays consistent; and if
      every region is aligned to the frame size nothing panics. */
  lemma {:induction false} AllocFromSound(es: Table, i: nat, k: nat)
    requires AllConsistent(es) && Shaped(es) && i <= |es|
    ensures AllocSound(es, i, k, AllocFrom(es, i, k))
    decreases |es| - i
  {
    if i == |es| {
    } else if es[i].Some? && (FrameStep(es[i].value, k).0.Panics? || FrameStep(es[i].value, k).0.value.Some?) {
      AllocHere(es, i, k);
    } else {
      var next := i + 1;
      AllocFromSound(es, next, k);
      AllocMoveOn(es, i, k, next);
    }
  }

  /** The allocator at `i` is absent or has no frame: what holds of the
      loop from `i + 1` holds of the loop from `i`. */
  lemma AllocMoveOn(es: Table, i: nat, k: nat, next: nat)
    requires AllConsistent(es) && Shaped(es) && i < |es| && next == i + 1
    requires !(es[i].Some? && (FrameStep(es[i].value, k).0.Panics? || FrameStep(es[i].value, k).0.value.Some?))
    requires AllocSound(es, next, k, AllocFrom(es, next, k))
    ensures AllocSound(es, i, k, AllocFrom(es, i, k))
  {
    if es[i].Some? {
      AllocPass(es, i, k);
    }
    AllocSkip(es, i, k);
  }

  /** An allocator with no frame is left as it was, so the loop moves on
      with the same table. */
  lemma {:induction false} AllocPass(es: Table, i: nat, k: nat)
    requires AllConsistent(es) && Shaped(es) && i < |es| && es[i].Some?
    requires FrameStep(es[i].value, k).0 == Returns(None)
    ensures AllocFrom(es, i, k) == AllocFrom(es, i + 1, k)
  {
    FrameStepSound(es[i].value, k);
    assert es[i := Some(FrameStep(es[i].value, k).1)] == es;
  }

  /** What `AllocFromSound` promises of the loop from position `i`
      ending in `res`. */
  ghost predicate AllocSound(es: Table, i: nat, k: nat, res: (Run<Option<nat>>, Table))
    requires i <= |es|
  {
    var (r, es') := res;
    && |es'| == |es| && AllConsistent(es') && es'[..i] == es[..i]
    && (r == Returns(None) ==>
          es' == es && forall j :: i <= j < |es| && es[j].Some? ==> FrameStep(es[j].value, k).0 == Returns(None))
    && (r.Returns? && r.value.Some? ==> exists j :: ServedBy(es, i, k, res, j))
    && (r.Returns? ==> Total(es') == Total(es) - (if r.value.Some? then FrameBytes(k) else 0))
    && ((forall j :: i <= j < |es| && es[j].Some? ==> es[j].value.physStart % FrameBytes(k) == 0) ==> r.Returns?)
  }

  /** Allocator `j` handed out the result `res`, only it changed, and every
      allocator from `i` before it had no frame. */
  ghost predicate ServedBy(es: Table, i: nat, k: nat, res: (Run<Option<nat>>, Table), j: nat)
  {
    && i <= j < |es| && es[j].Some? && Shaped(es)
    && FrameStep(es[j].value, k).0 == res.0
    && res.1 == es[j := Some(FrameStep(es[j].value, k).1)]
    && forall m :: i <= m < j && es[m].Some? ==> FrameStep(es[m].value, k).0 == Returns(None)
  }

  /** The allocator at `i` panics or hands out a frame: the loop ends. */
  lemma {:induction false} AllocHere(es: Table, i: nat, k: nat)
    requires AllConsistent(es) && Shaped(es) && i < |es| && es[i].Some?
    requires FrameStep(es[i].value, k).0.Panics? || FrameStep(es[i].value, k).0.value.Some?
    ensures AllocSound(es, i, k, AllocFrom(es, i, k))
  {
    var st := es[i].value;
    FrameStepSound(st, k);
    var step := FrameStep(st, k);
    var es1 := es[i := Some(step.1)];
    assert AllocFrom(es, i, k) == (step.0, es1);
    assert AllConsistent(es1);
    assert es1[..i] == es[..i];
    TotalUpdate(es, i, Some(step.1));
    if step.0.Returns? {
      assert ServedBy(es, i, k, (step.0, es1), i);
    }
  }

  /** The allocator at `i` is absent, or has no frame and is unchanged:
      the loop goes on to `i + 1`. */
  lemma {:induction false} AllocSkip(es: Table, i: nat, k: nat)
    requires AllConsistent(es) && Shaped(es) && i < |es|
    requires es[i].Some? ==> FrameStep(es[i].value, k).0 == Returns(None)
    requires AllocFrom(es, i, k) == AllocFrom(es, i + 1, k)
    requires AllocSound(es, i + 1, k, AllocFrom(es, i + 1, k))
    ensures AllocSound(es, i, k, AllocFrom(es, i, k))
  {
    var res := AllocFrom(es, i + 1, k);
    assert res.1[..i] == res.1[..i + 1][..i];
    assert es[..i] == es[..i + 1][..i];
    var (r, es') := res;
    if r.Returns? && r.value.Some? {
      var j: nat :| ServedBy(es, i + 1, k, res, j);
      ServedEarlier(es, i, k, res, j);
    }
  }

  /** An allocator with no frame before the one that served keeps it the
      first that served. */
  lemma {:induction false} ServedEarlier(es: Table, i: nat, k: nat, res: (Run<Option<nat>>, Table), j: nat)
    requires i < |es| && ServedBy(es, i + 1, k, res, j)
    requires es[i].Some? ==> FrameStep(es[i].value, k).0 == Returns(None)
    ensures ServedBy(es, i, k, res, j)
  {
  }

  /** `allocate_frame` of the manager: the loop over the table, then
      `self.remaining -= frame.size()` on success (a `usize`
      subtraction, which panics below zero). */
  function ManagerAlloc(remaining: int, es: Table, k: nat): (r: (Run<Option<nat>>, int, Table))
    requires Shaped(es)
  {
    var (found, es') := AllocFrom(es, 0, k);
    if found.Returns? && found.value.Some? then
      if remaining < FrameBytes(k) then (Panics("attempt to subtract with overflow"), remaining, es')
      else (found, remaining - FrameBytes(k), es')
    else (found, remaining, es')
  }

  /** When the manager's count is the sum of its consistent allocators',
      the subtraction never underflows and the count stays that sum. */
  lemma {:induction false} ManagerAllocSound(remaining: int, es: Table, k: nat)
    requires AllConsistent(es) && Shaped(es) && remaining == Total(es)
    ensures var (r, rem', es') := ManagerAlloc(remaining, es, k);
      && AllConsistent(es')
      && r == AllocFrom(es, 0, k).0
      && (r.Returns? ==> rem' == Total(es'))
      && (r == Returns(None) ==> es' == es && rem' == remaining)
      && (r.Returns? && r.value.Some? ==> rem' == remaining - FrameBytes(k))
  {
    AllocFromSound(es, 0, k);
    var (found, es') := AllocFrom(es, 0, k);
    if found.Returns? && found.value.Some? {
      var j: nat :| ServedBy(es, 0, k, AllocFrom(es, 0, k), j);
      FrameStepSound(es[j].value, k);
      TotalAtLeast(es, j);
      assert es[j].value.remaining >= FrameBytes(k) by {
        var st := es[j].value;
        assert st.remaining == FreeUnits(st.bits, st.layers) * PAGE_SIZE;
        assert FreeUnits(st.bits, st.layers) >= Pow2(k) by {
          FrameAlloc(st.layers, st.bits, k);
        }
        MulMono(PAGE_SIZE, Pow2(k), FreeUnits(st.bits, st.layers));
      }
    }
  }

  /** `deallocate_frame` as written, from table position `i` on: every
      allocator whose region contains the frame gives it back and the
      count rises, but the loop never returns, so after it the code
      always reaches its `panic!`. */
  function DeallocAsWritten(remaining: int, es: Table, i: nat, start: nat, k: nat): (r: (Run<()>, int, Table))
    requires Shaped(es) && i <= |es|
    decreases |es| - i
  {
    if i == |es| then (Panics("attempt to deallocate page that is not managed by any allocator"), remaining, es)
    else if es[i].None? || !ContainsFrame(es[i].value.physStart, es[i].value.regionSize, start, FrameBytes(k)) then
      DeallocAsWritten(remaining, es, i + 1, start, k)
    else
      var step := DeallocStep(es[i].value, start, k);
      var es' := es[i := Some(step.1)];
      if step.0.Panics? then (step.0, remaining, es')
      else DeallocAsWritten(remaining + FrameBytes(k), es', i + 1, start, k)
  }

  /** Every deallocation through the manager, as written, panics, even
      one that its allocator accepted. */
  lemma {:induction false} DeallocAsWrittenPanics(remaining: int, es: Table, i: nat, start: nat, k: nat)
    requires Shaped(es) && i <= |es|
    ensures DeallocAsWritten(remaining, es, i, start, k).0.Panics?
    decreases |es| - i
  {
    if i < |es| {
      if es[i].None? || !ContainsFrame(es[i].value.physStart, es[i].value.regionSize, start, FrameBytes(k)) {
        DeallocAsWrittenPanics(remaining, es, i + 1, start, k);
      } else {
        var step := DeallocStep(es[i].value, start, k);
        if step.0.Returns? {
          DeallocAsWrittenPanics(remaining + FrameBytes(k), es[i := Some(step.1)], i + 1, start, k);
        }
      }
    }
  }

  /** `deallocate_frame` as intended: the first allocator whose region
      contains the frame gives it back, the count rises, and the loop
      returns; only a frame no allocator contains reaches the panic. */
  function DeallocFrom(remaining: int, es: Table, i: nat, start: nat, k: nat): (r: (Run<()>, int, Table))
    requires Shaped(es) && i <= |es|
    ensures |r.2| == |es| && Shaped(r.2)
    decreases |es| - i
  {
    if i == |es| then (Panics("attempt to deallocate page that is not managed by any allocator"), remaining, es)
    else if es[i].None? || !ContainsFrame(es[i].value.physStart, es[i].value.regionSize, start, FrameBytes(k)) then
      DeallocFrom(remaining, es, i + 1, start, k)
    else
      var step := DeallocStep(es[i].value, start, k);
      var es' := es[i := Some(step.1)];
      if step.0.Panics? then (step.0, remaining, es')
      else (Returns(()), remaining + FrameBytes(k), es')
  }

  /** The first allocator from position `i` whose region contains the
      frame, if any. */
  function FirstContaining(es: Table, i: nat, start: nat, k: nat): (r: Option<nat>)
    requires i <= |es|
    ensures r.Some? ==> (i <= r.value < |es| && es[r.value].Some?
      && ContainsFrame(es[r.value].value.physStart, es[r.value].value.regionSize, start, FrameBytes(k)))
    decreases |es| - i
  {
    if i == |es| then None
    else if es[i].Some? && ContainsFrame(es[i].value.physStart, es[i].value.regionSize, start, FrameBytes(k)) then Some(i)
    else FirstContaining(es, i + 1, start, k)
  }

  /** The block of layer k at `start` is handed out by allocator `st`. */
  ghost predicate Holds(st: AllocState, start: nat, k: nat)
    requires |st.bits| == Size(st.layers)
  {
    st.physStart <= start && k < st.layers
    && var idx := BlockIndex(st.physStart, start, k);
       idx < LayerLen(st.layers, k) && Allocated(st.bits, st.layers, k, idx)
  }

  /** The intended deallocation acts on the first allocator that contains
      the frame and on no other: a frame no region contains panics with
      nothing changed; otherwise the outcome and the new allocator are
      that allocator's own, the count rises by the frame size exactly when
      it accepts the frame, and a frame it had handed out is accepted,
      leaving every allocator consistent and the count the sum of
      theirs. */
  lemma {:induction false} DeallocFromSound(remaining: int, es: Table, i: nat, start: nat, k: nat)
    requires AllConsistent(es) && Shaped(es) && i <= |es|
    ensures var (r, rem', es') := DeallocFrom(remaining, es, i, start, k);
      && (FirstContaining(es, i, start, k).None? ==> r.Panics? && rem' == remaining && es' == es)
      && (FirstContaining(es, i, start, k).Some? ==>
            var j := FirstContaining(es, i, start, k).value;
            var step := DeallocStep(es[j].value, start, k);
            && es' == es[j := Some(step.1)] && r == step.0
            && rem' == (if r.Returns? then remaining + FrameBytes(k) else remaining)
            && (Holds(es[j].value, start, k) ==>
                  r == Returns(()) && Total(es') == Total(es) + FrameBytes(k) && AllConsistent(es')))
    decreases |es| - i
  {
    if i < |es| {
      if es[i].None? || !ContainsFrame(es[i].value.physStart, es[i].value.regionSize, start, FrameBytes(k)) {
        DeallocFromSound(remaining, es, i + 1, start, k);
      } else {
        var st := es[i].value;
        var step := DeallocStep(st, start, k);
        TotalUpdate(es, i, Some(step.1));
        if Holds(st, start, k) {
          DeallocAccepted(st, start, k);
          assert AllConsistent(es[i := Some(step.1)]);
        }
      }
    }
  }

  /** An allocator given back a frame it handed out accepts it and stays
      consistent, with its count raised by the frame size. */
  lemma {:induction false} DeallocAccepted(st: AllocState, start: nat, k: nat)
    requires StateConsistent(st) && start < st.physStart + st.regionSize && Holds(st, start, k)
    ensures DeallocStep(st, start, k).0 == Returns(())
    ensures StateConsistent(DeallocStep(st, start, k).1)
    ensures DeallocStep(st, start, k).1.remaining == st.remaining + FrameBytes(k)
  {
    DeallocStepSound(st, start, k);
    assert DeallocSound(st, start, k, DeallocStep(st, start, k));
  }

  /** The allocators `from_mmap` creates, in map order: one for each
      `Available` region, at the region's start and of its length. */
  function Allocators(mmap: seq<BootFrames.MemoryRegion>): (r: seq<AllocState>)
  {
    if mmap == [] then []
    else
      var region := mmap[|mmap| - 1];
      Allocators(mmap[..|mmap| - 1]) + (if region.kind == BootFrames.Available then [Created(region)] else [])
  }

  /** `BuddyAllocator::new` for a region, in its intended form (which
      never panics). */
  function Created(region: BootFrames.MemoryRegion): (st: AllocState)
  {
    NewRegionSound(region.len);
    var s := NewRegion(region.len).value;
    AllocState(region.start, region.len, s.remaining, s.layers, s.bits)
  }

  /** A table of `n` slots holding `xs` in order, then empty slots. */
  function Padded(xs: seq<AllocState>, n: nat): (es: Table)
    requires |xs| <= n
  {
    seq(n, i requires 0 <= i < n => if i < |xs| then Some(xs[i]) else None)
  }

  /** `from_mmap` on a table of `n` slots: it panics (an index out of the
      array's bounds) when the map has more than `n` available regions;
      otherwise the table holds their allocators in map order and
      `remaining` is the sum of their counts. */
  function FromMmapSpec(n: nat, mmap: seq<BootFrames.MemoryRegion>): (r: Run<(int, Table)>)
  {
    var xs := Allocators(mmap);
    if |xs| > n then Panics("index out of bounds")
    else Returns((Total(Padded(xs, n)), Padded(xs, n)))
  }

  /** A fresh allocator is consistent, lies at its region, and makes
      available exactly the region's pages after its own bitmap. */
  lemma {:induction false} CreatedSound(region: BootFrames.MemoryRegion)
    ensures var st := Created(region);
      && StateConsistent(st) && st.physStart == region.start && st.regionSize == region.len
      && st.layers == RegionLayers(region.len)
      && forall j: nat :: j < LayerLen(st.layers, 0) ==>
           (Available(st.bits, st.layers, 0, j) <==> BitmapPages(region.len) <= j < Pages(region.len))
  {
    NewRegionSound(region.len);
  }

  /** Every allocator of a manager built from a map is consistent, and
      the manager's count is the sum of theirs. */
  lemma {:induction false} FromMmapSound(n: nat, mmap: seq<BootFrames.MemoryRegion>)
    ensures FromMmapSpec(n, mmap).Returns? <==> |Allocators(mmap)| <= n
    ensures FromMmapSpec(n, mmap).Returns? ==>
      var (remaining, es) := FromMmapSpec(n, mmap).value;
      |es| == n && Shaped(es) && AllConsistent(es) && remaining == Total(es) >= 0
  {
    var xs := Allocators(mmap);
    if |xs| <= n {
      AllocatorsSound(mmap);
      var es := Padded(xs, n);
      assert AllConsistent(es);
      TotalNonNegative(es);
    }
  }

  lemma {:induction false} AllocatorsSound(mmap: seq<BootFrames.MemoryRegion>)
    ensures forall i :: 0 <= i < |Allocators(mmap)| ==> StateConsistent(Allocators(mmap)[i])
  {
    if mmap != [] {
      var init := mmap[..|mmap| - 1];
      AllocatorsSound(init);
      CreatedSound(mmap[|mmap| - 1]);
    }
  }

  /** A table of empty slots counts nothing. */
  lemma {:induction false} TotalEmpty(es: Table)
    requires forall i :: 0 <= i < |es| ==> es[i].None?
    ensures Total(es) == 0
  {
    if es != [] {
      TotalEmpty(es[1..]);
    }
  }

  /** One more allocator in the next empty slot. */
  lemma {:induction false} PaddedPush(xs: seq<AllocState>, x: AllocState, n: nat)
    requires |xs| < n
    ensures Padded(xs + [x], n) == Padded(xs, n)[|xs| := Some(x)]
    ensures Total(Padded(xs + [x], n)) == Total(Padded(xs, n)) + x.remaining
  {
    var es := Padded(xs, n);
    assert Padded(xs + [x], n) == es[|xs| := Some(x)];
    TotalUpdate(es, |xs|, Some(x));
  }

  /** `BuddyAllocatorManager`: the table of allocators and the total free
      byte count. */
  class BuddyAllocatorManager {
    var remaining: int
    var entries: Table

    constructor Make(remaining: int, entries: Table)
      ensures this.remaining == remaining && this.entries == entries
    {
      this.remaining := remaining;
      this.entries := entries;
    }

    /** `from_mmap`: one allocator per `Available` region, in map order. */
    static method FromMmap(n: nat, mmap: seq<BootFrames.MemoryRegion>) returns (r: Run<BuddyAllocatorManager>)
      ensures r.Returns? <==> FromMmapSpec(n, mmap).Returns?
      ensures r.Returns? ==> (fresh(r.value)
        && (r.value.remaining, r.value.entries) == FromMmapSpec(n, mmap).value)
    {
      var entries := Padded([], n);
      TotalEmpty(entries);
      var remaining := 0;
      var i := 0;
      var idx := 0;
      while idx < |mmap|
        invariant 0 <= idx <= |mmap|
        invariant i == |Allocators(mmap[..idx])| <= n
        invariant entries == Padded(Allocators(mmap[..idx]), n)
        invariant remaining == Total(entries)
      {
        var region := mmap[idx];
        AllocatorsStep(mmap, idx);
        if region.kind != BootFrames.Available {
          idx := idx + 1;
          continue;
        }
        var e := Created(region);
        if i >= n {
          AllocatorsGrow(mmap, idx + 1);
          return Panics("index out of bounds");
        }
        PaddedPush(Allocators(mmap[..idx]), e, n);
        remaining := remaining + e.remaining;
        entries := entries[i := Some(e)];
        i := i + 1;
        idx := idx + 1;
      }
      assert mmap[..idx] == mmap;
      var m := new BuddyAllocatorManager.Make(remaining, entries);
      return Returns(m);
    }

    /** `allocate_frame` for a frame of 2^k pages. */
    method AllocateFrame(k: nat) returns (r: Run<Option<nat>>)
      modifies this
      requires Shaped(entries)
      ensures (r, remaining, entries) == ManagerAlloc(old(remaining), old(entries), k)
    {
      var i := 0;
      while i < |entries|
        invariant 0 <= i <= |entries| && Shaped(entries)
        invariant AllocFrom(entries, i, k) == AllocFrom(old(entries), 0, k)
        invariant remaining == old(remaining)
      {
        if entries[i].Some? {
          var step := FrameStep(entries[i].value, k);
          entries := entries[i := Some(step.1)];
          if step.0.Panics? {
            return step.0;
          }
          if step.0.value.Some? {
            if remaining < FrameBytes(k) {
              return Panics("attempt to subtract with overflow");
            }
            remaining := remaining - FrameBytes(k);
            return step.0;
          }
        }
        i := i + 1;
      }
      return Returns(None);
    }

    /** `deallocate_frame` for the frame of 2^k pages at `start`, in its
        intended form: it returns once an allocator took the frame back. */
    method DeallocateFrame(start: nat, k: nat) returns (r: Run<()>)
      modifies this
      requires Shaped(entries)
      ensures (r, remaining, entries) == DeallocFrom(old(remaining), old(entries), 0, start, k)
    {
      var i := 0;
      while i < |entries|
        invariant 0 <= i <= |entries| && Shaped(entries)
        invariant DeallocFrom(remaining, entries, i, start, k) == DeallocFrom(old(remaining), old(entries), 0, start, k)
      {
        var e := entries[i];
        if e.Some? && ContainsFrame(e.value.physStart, e.value.regionSize, start, FrameBytes(k)) {
          var step := DeallocStep(e.value, start, k);
          entries := entries[i := Some(step.1)];
          if step.0.Panics? {
            return step.0;
          }
          remaining := remaining + FrameBytes(k);
          return Returns(());
        }
        i := i + 1;
      }
      return Panics("attempt to deallocate page that is not managed by any allocator");
    }
  }

  /** The allocators of one more region of the map. */
  lemma {:induction false} AllocatorsStep(mmap: seq<BootFrames.MemoryRegion>, idx: nat)
    requires idx < |mmap|
    ensures Allocators(mmap[..idx + 1]) == Allocators(mmap[..idx])
      + (if mmap[idx].kind == BootFrames.Available then [Created(mmap[idx])] else [])
  {
    assert mmap[..idx + 1][..idx] == mmap[..idx];
  }

  /** The allocators of a prefix of the map are at most those of a
      longer prefix. */
  lemma {:induction false} AllocatorsGrow(mmap: seq<BootFrames.MemoryRegion>, j: nat)
    requires j <= |mmap|
    ensures |Allocators(mmap[..j])| <= |Allocators(mmap)|
    decreases |mmap| - j
  {
    if j < |mmap| {
      AllocatorsGrow(mmap, j + 1);
      assert mmap[..j + 1][..j] == mmap[..j];
    } else {
      assert mmap[..j] == mmap;
    }
  }
}
