/** How `BuddyAllocator` of
    `kernel/src/arch/x86_64/memory/frame_allocator/buddy.rs` sizes its
    bitmap for a region, which pages its constructor makes available, and
    what one frame allocation or deallocation does to the bitmap. */
module BuddyRegion {
  import opened Base
  import opened BuddyLayout
  import opened BuddyOps
  import opened BuddyDiscipline
  import opened BuddyExhaustion

  const PAGE_SIZE: nat := 4096

  /** `p.next_power_of_two().ilog2()`: the least k with 2^k >= p (0 for
      p = 0, whose next power of two is 1). */
  function Log2Ceil(p: nat): (r: nat)
    ensures Pow2(r) >= p && (r == 0 || Pow2(r - 1) < p)
    decreases p
  {
    if p <= 1 then 0 else Log2Ceil((p + 1) / 2) + 1
  }

  /** Pages of a region of `size` bytes, a partial last page counted whole. */
  function Pages(size: nat): (r: nat)
    ensures r * PAGE_SIZE >= size && r * PAGE_SIZE < size + PAGE_SIZE
  {
    NextMultipleOf(size, PAGE_SIZE) / PAGE_SIZE
  }

  /** Layers of the region's bitmap: enough for one layer-0 bit per page. */
  function RegionLayers(size: nat): (r: nat)
    ensures r >= 1 && LayerLen(r, 0) >= Pages(size)
  {
    Log2Ceil(Pages(size)) + 1
  }

  /** Whole pages taken by the bitmap at the start of the region. */
  function BitmapPages(size: nat): nat
  {
    NextMultipleOf(BytesRequired(RegionLayers(size)), PAGE_SIZE) / PAGE_SIZE
  }

  /** What `BuddyAllocator::new` sets up: the bitmap's layers, its bits and
      the `remaining` byte count. */
  datatype Setup = Setup(layers: nat, bits: seq<bool>, remaining: nat)

  /** `BuddyAllocator::new` as written: on the all-used bitmap it frees the
      layer-0 range `bitmap_pages..bitmap_len`, whose end is the bitmap's
      length in bytes, unwraps the result and sets `remaining` to the
      region size less the bitmap's byte length. */
  function NewAsWritten(size: nat): (r: Run<Setup>)
    ensures r.Returns? ==> r.value.layers == RegionLayers(size) && |r.value.bits| == Size(r.value.layers)
  {
    var n := RegionLayers(size);
    var len := BytesRequired(n);
    var freed := DeallocRangeSpec(n, Repeat(true, Size(n)), BitmapPages(size), len, 0);
    if freed.Panics? then Panics(freed.reason)
    else if freed.value.result.Err? then Panics("called `Result::unwrap()` on an `Err` value")
    else if size < len then Panics("attempt to subtract with overflow")
    else Returns(Setup(n, freed.value.bits, size - len))
  }

  /** `BuddyAllocator::new` as intended: every page after the bitmap's own
      pages is freed, and `remaining` counts exactly those pages. */
  function NewRegion(size: nat): (r: Run<Setup>)
    ensures r.Returns? ==> r.value.layers == RegionLayers(size) && |r.value.bits| == Size(r.value.layers)
  {
    var n := RegionLayers(size);
    var all := Repeat(true, Size(n));
    var pages, bp := Pages(size), BitmapPages(size);
    if bp < pages then
      var freed := DeallocRangeSpec(n, all, bp, pages, 0);
      if freed.Panics? then Panics(freed.reason)
      else if freed.value.result.Err? then Panics("called `Result::unwrap()` on an `Err` value")
      else Returns(Setup(n, freed.value.bits, (pages - bp) * PAGE_SIZE))
    else Returns(Setup(n, all, 0))
  }

  /** A bitmap with every bit used keeps the discipline and has nothing
      free anywhere. */
  lemma {:induction false} AllUsedFacts(n: nat)
    ensures Inv(Repeat(true, Size(n)), n) && UsedFrom(Repeat(true, Size(n)), n, 0)
    ensures FreeUnits(Repeat(true, Size(n)), n) == 0
  {
    var all := Repeat(true, Size(n));
    forall l: nat, j: nat | j < LayerLen(n, l)
      ensures Get(all, n, l, j)
    {
      LayerInBounds(n, l);
    }
    AllUsedEmpty(n);
  }

  /** The intended constructor never panics; it keeps the discipline,
      makes exactly the pages after the bitmap available (the bitmap's
      pages and the padding past the region stay used) and `remaining` is
      the free capacity in bytes. */
  lemma {:induction false} NewRegionSound(size: nat)
    ensures var r := NewRegion(size);
      && r.Returns? && Inv(r.value.bits, r.value.layers)
      && (forall j: nat :: j < LayerLen(r.value.layers, 0) ==>
            (Available(r.value.bits, r.value.layers, 0, j) <==> BitmapPages(size) <= j < Pages(size)))
      && r.value.remaining == FreeUnits(r.value.bits, r.value.layers) * PAGE_SIZE
      && FreeUnits(r.value.bits, r.value.layers) == (if BitmapPages(size) < Pages(size) then Pages(size) - BitmapPages(size) else 0)
  {
    var n := RegionLayers(size);
    var all := Repeat(true, Size(n));
    var pages, bp := Pages(size), BitmapPages(size);
    AllUsedFacts(n);
    if bp < pages {
      var freed := NewRegionFreed(size, n, pages, bp);
    } else {
      forall j: nat | j < LayerLen(n, 0)
        ensures !Available(all, n, 0, j)
      {
        UsedAboveNotCovered(all, n, 0, j);
      }
    }
  }

  /** The intended constructor when there are pages after the bitmap: it
      returns the bitmap `freed` with exactly those pages available. */
  lemma {:induction false} NewRegionFreed(size: nat, n: nat, pages: nat, bp: nat) returns (freed: seq<bool>)
    requires n == RegionLayers(size) && pages == Pages(size) && bp == BitmapPages(size) && bp < pages
    ensures |freed| == Size(n) && NewRegion(size) == Returns(Setup(n, freed, (pages - bp) * PAGE_SIZE))
    ensures Inv(freed, n) && FreeUnits(freed, n) == pages - bp
    ensures forall j: nat :: j < LayerLen(n, 0) ==> (Available(freed, n, 0, j) <==> bp <= j < pages)
  {
    var all := Repeat(true, Size(n));
    AllUsedFacts(n);
    DeallocRangeFresh(n, all, bp, pages, 0);
    DeallocRangeAccounting(n, all, bp, pages, 0);
    freed := DeallocRangeSpec(n, all, bp, pages, 0).value.bits;
    assert FreeUnits(freed, n) == pages - bp by {
      LayerZeroWidth(bp, pages, Pow2(0));
    }
  }

  /** A non-empty layer-0 range frees its width in pages. */
  lemma LayerZeroWidth(s: nat, e: nat, p: int)
    requires s < e && p == 1
    ensures FreedWidth(s, e) * p == e - s
  {
  }

  /** As written, a region of at most one page makes `new` panic. The
      range to free is `1..1`, an empty range at an odd index, so its two
      edge bits are freed one after the other; with a single layer both are the top bit, and the
      second `dealloc_bit` fails with `DoubleFree`, which is unwrapped. */
  lemma NewAsWrittenOnePage(size: nat)
    requires size <= PAGE_SIZE
    ensures NewAsWritten(size).Panics?
  {
    assert Pages(size) <= 1;
    assert RegionLayers(size) == 1;
    assert BytesRequired(1) == 1;
    assert BitmapPages(size) == 1;
    var all := Repeat(true, Size(1));
    var first := StartEdge(1, all, 1, 0);
    assert first == Outcome(Ok(()), [false]);
    assert EndEdge(1, first.bits, 1, 0).result.Err?;
  }

  /** Found the same way: in a two-page region the same `1..1` range
      frees both layer-0 bits, which merge into a free top block, so page
      0, which holds the bitmap itself, is handed out by the next
      allocation; and `remaining` is one byte short of two pages. */
  lemma NewAsWrittenTwoPages(size: nat)
    requires PAGE_SIZE < size <= 2 * PAGE_SIZE
    ensures var r := NewAsWritten(size);
      && r.Returns? && r.value.layers == 2 && BitmapPages(size) == 1
      && Available(r.value.bits, 2, 0, 0)
      && r.value.remaining == size - 1
  {
    assert Pages(size) == 2;
    assert RegionLayers(size) == 2;
    assert BytesRequired(2) == 1;
    assert BitmapPages(size) == 1;
    var all := Repeat(true, Size(2));
    assert all == [true, true, true];
    var first := StartEdge(2, all, 1, 0);
    assert first == Outcome(Ok(()), [true, false, true]);
    var second := EndEdge(2, first.bits, 1, 0);
    assert second == Outcome(Ok(()), [true, true, false]);
  }

  /** Found the same way: in a region of 1000 pages the bitmap has 2047
      bits, so `bitmap_len` is 256 bytes and only pages 1..256 are freed:
      page 999, which the intended constructor makes available, is never
      handed out. */
  lemma NewAsWrittenStrandsPages()
    ensures var r := NewAsWritten(1000 * PAGE_SIZE);
      && r.Returns? && r.value.layers == 11 && 999 < LayerLen(11, 0)
      && !Available(r.value.bits, 11, 0, 999)
    ensures var r := NewRegion(1000 * PAGE_SIZE);
      r.Returns? && r.value.layers == 11 && Available(r.value.bits, 11, 0, 999)
  {
    ThousandPages();
    StrandedAsWritten(1000 * PAGE_SIZE, 11);
    ReachedAsIntended(1000 * PAGE_SIZE, 11);
  }

  /** The code as written on a region of `size` = 1000 pages: page 999 is
      not available. */
  lemma StrandedAsWritten(size: nat, n: nat)
    requires n == 11 && RegionLayers(size) == n && BitmapPages(size) == 1 && BytesRequired(n) == 256
    requires LayerLen(n, 0) == 1024 && size >= 256
    ensures var r := NewAsWritten(size);
      r.Returns? && r.value.layers == n && !Available(r.value.bits, n, 0, 999)
  {
    var all := Repeat(true, Size(n));
    AllUsedFacts(n);
    DeallocRangeFresh(n, all, 1, 256, 0);
  }

  /** The intended constructor on a region of `size` = 1000 pages: page
      999 is available. */
  lemma ReachedAsIntended(size: nat, n: nat)
    requires RegionLayers(size) == n && Pages(size) == 1000 && BitmapPages(size) == 1 && LayerLen(n, 0) == 1024
    ensures var r := NewRegion(size);
      r.Returns? && r.value.layers == n && Available(r.value.bits, n, 0, 999)
  {
    NewRegionSound(size);
  }

  /** The sizes of a 1000-page region. */
  lemma ThousandPages()
    ensures Pages(1000 * PAGE_SIZE) == 1000 && RegionLayers(1000 * PAGE_SIZE) == 11
    ensures BytesRequired(11) == 256 && BitmapPages(1000 * PAGE_SIZE) == 1
    ensures LayerLen(11, 0) == 1024
  {
    assert Pages(1000 * PAGE_SIZE) == 1000;
    Log2CeilThousand();
    Pow2Eleven();
    assert Size(11) == 2047;
    assert NextMultipleOf(2047, 8) == 2048;
    assert NextMultipleOf(256, PAGE_SIZE) == PAGE_SIZE;
  }

  lemma Log2CeilThousand()
    ensures Log2Ceil(1000) == 10
  {
    assert Log2Ceil(2) == 1;
    assert Log2Ceil(4) == 2;
    assert Log2Ceil(8) == 3;
    assert Log2Ceil(16) == 4;
    assert Log2Ceil(32) == 5;
    assert Log2Ceil(63) == 6;
    assert Log2Ceil(125) == 7;
    assert Log2Ceil(250) == 8;
    assert Log2Ceil(500) == 9;
  }

  lemma Pow2Eleven()
    ensures Pow2(10) == 1024 && Pow2(11) == 2048
  {
    assert Pow2(2) == 4;
    assert Pow2(4) == 16;
    assert Pow2(6) == 64;
    assert Pow2(8) == 256;
  }

  /** A request that no layer is large enough for fails and changes
      nothing. */
  lemma {:induction false} AllocRangeTooBig(n: nat, bits: seq<bool>, k: nat, layer: nat)
    requires |bits| == Size(n) && n >= 1 && layer + k >= n
    ensures var r := AllocRangeSpec(n, bits, Pow2(k), layer);
      r.Returns? && r.value.result.Err? && r.value.bits == bits
    decreases k
  {
    if layer < n {
      var km1, up := k - 1, layer + 1;
      Pow2Half(k, km1);
      var half := Pow2(km1);
      AllocRangeTooBig(n, bits, km1, up);
      AllocRangeStep(n, bits, Pow2(k), layer, up, half);
      var above := AllocRangeSpec(n, bits, half, up);
      assert above.Returns? && above.value.result.Err?;
    }
  }

  /** One frame of 2^k pages (`alloc_range(2^k, 0)`, k = 0, 9 or 18 for
      4 KiB, 2 MiB and 1 GiB) from a disciplined bitmap: it never panics
      and keeps the discipline; a frame it returns is aligned to its own
      size, was available and is now allocated as one block of layer k,
      and the free capacity falls by exactly 2^k pages; a failure changes
      nothing. */
  lemma {:induction false} FrameAlloc(n: nat, bits: seq<bool>, k: nat)
    requires Inv(bits, n) && n >= 1
    ensures var r := AllocRangeSpec(n, bits, Pow2(k), 0);
      && r.Returns? && Inv(r.value.bits, n)
      && (r.value.result.Err? ==> r.value.bits == bits)
      && (r.value.result.Ok? ==>
        var f := r.value.result.value;
        && f.start % Pow2(k) == 0 && f.end == f.start + Pow2(k)
        && f.start / Pow2(k) < LayerLen(n, k)
        && Available(bits, n, k, f.start / Pow2(k))
        && Allocated(r.value.bits, n, k, f.start / Pow2(k))
        && FreeUnits(r.value.bits, n) + Pow2(k) == FreeUnits(bits, n))
  {
    if k < n {
      AllocRangePow2(n, bits, k, 0, k);
      AllocBitKeepsInv(n, bits, k);
      AllocBitOutcome(n, bits, k);
      var o := AllocBitSpec(n, bits, k);
      if o.result.Ok? {
        MulDiv(Pow2(k), o.result.value);
        MulAdd(Pow2(k), o.result.value, 1);
      }
    } else {
      AllocRangeTooBig(n, bits, k, 0);
    }
  }

  /** Giving back an allocated block of layer k (`dealloc_bit(idx, k)`)
      succeeds, keeps the discipline, makes the block available again and
      raises the free capacity by exactly 2^k pages. */
  lemma FrameDealloc(n: nat, bits: seq<bool>, idx: nat, k: nat)
    requires Inv(bits, n) && n >= 1 && idx < LayerLen(n, k) && Allocated(bits, n, k, idx)
    ensures var o := DeallocBitSpec(n, bits, idx, k);
      && o.result.Ok? && Inv(o.bits, n) && Available(o.bits, n, k, idx)
      && FreeUnits(o.bits, n) == FreeUnits(bits, n) + Pow2(k)
  {
    DeallocBitKeepsInv(n, bits, idx, k);
    DeallocBitAccounting(n, bits, idx, k);
  }

  /** `contains_frame`: both the first byte and the end of the frame lie
      in the half-open region. */
  function ContainsFrame(physStart: nat, regionSize: nat, start: nat, frameSize: nat): bool
  {
    physStart <= start < physStart + regionSize && physStart <= start + frameSize < physStart + regionSize
  }

  /** Because the frame's end must lie inside the half-open region, a
      frame that ends exactly at the end of the region is not contained,
      while a contained frame passes both assertions of
      `deallocate_frame`. */
  lemma ContainsFrameBounds(physStart: nat, regionSize: nat, start: nat, frameSize: nat)
    ensures start + frameSize == physStart + regionSize ==> !ContainsFrame(physStart, regionSize, start, frameSize)
    ensures ContainsFrame(physStart, regionSize, start, frameSize) ==>
      start >= physStart && start - physStart < regionSize && start + frameSize < physStart + regionSize
  {
  }

  /** One `BuddyAllocator` as a value: its region, its `remaining` byte
      count and its bitmap. */
  datatype AllocState = AllocState(physStart: nat, regionSize: nat, remaining: int, layers: nat, bits: seq<bool>)

  /** The allocator's bitmap is well formed, keeps the buddy discipline,
      and `remaining` is its free capacity in bytes. */
  ghost predicate StateConsistent(st: AllocState)
  {
    st.layers >= 1 && |st.bits| == Size(st.layers) && Inv(st.bits, st.layers)
    && st.remaining == FreeUnits(st.bits, st.layers) * PAGE_SIZE
  }

  /** `allocate_frame` for a frame of 2^k pages: `alloc_range(2^k, 0)`;
      on success the frame starts at `phys_start + idx.start * 4096`,
      `remaining` falls by the frame size, and the start address must be
      aligned to the frame size (`PhysFrame::from_start_address(start).unwrap()`). */
  function FrameStep(st: AllocState, k: nat): (r: (Run<Option<nat>>, AllocState))
    requires st.layers >= 1 && |st.bits| == Size(st.layers)
    ensures r.1.layers == st.layers && |r.1.bits| == |st.bits|
    ensures r.1.physStart == st.physStart && r.1.regionSize == st.regionSize
  {
    TakeFrame(st, k, AllocRangeSpec(st.layers, st.bits, Pow2(k), 0))
  }

  /** The part of `allocate_frame` after `alloc_range` returned `o`. */
  function TakeFrame(st: AllocState, k: nat, o: Run<Outcome<Range>>): (r: (Run<Option<nat>>, AllocState))
    requires o.Returns? ==> |o.value.bits| == |st.bits|
    ensures r.1.layers == st.layers && (o.Returns? ==> |r.1.bits| == |st.bits|)
    ensures r.1.physStart == st.physStart && r.1.regionSize == st.regionSize
  {
    if o.Panics? then (Panics(o.reason), st)
    else if o.value.result.Err? then (Returns(None), st.(bits := o.value.bits))
    else
      var start := st.physStart + o.value.result.value.start * PAGE_SIZE;
      var after := st.(bits := o.value.bits, remaining := st.remaining - PAGE_SIZE * Pow2(k));
      if start % (PAGE_SIZE * Pow2(k)) == 0 then (Returns(Some(start)), after)
      else (Panics("called `Result::unwrap()` on an `Err` value"), after)
  }

  /** The block of layer k holding address `start` of a region at
      `physStart`. */
  function BlockIndex(physStart: nat, start: nat, k: nat): nat
    requires physStart <= start
  {
    Quot(start - physStart, PAGE_SIZE * Pow2(k))
  }

  function Quot(a: nat, b: nat): (r: nat)
    requires b > 0
    ensures r == a / b
  {
    a / b
  }

  /** `deallocate_frame` for a frame of 2^k pages: asserts the start lies
      in the region, frees its block of layer k (`dealloc_bit(idx, k)`,
      unwrapped) and raises `remaining` by the frame size. */
  function DeallocStep(st: AllocState, start: nat, k: nat): (r: (Run<()>, AllocState))
    requires st.layers >= 1 && |st.bits| == Size(st.layers)
    ensures r.1.layers == st.layers && |r.1.bits| == |st.bits|
    ensures r.1.physStart == st.physStart && r.1.regionSize == st.regionSize
  {
    if start < st.physStart then (Panics("assertion failed: frame.start_address() >= self.phys_start"), st)
    else if start - st.physStart >= st.regionSize then
      (Panics("assertion failed: frame.start_address() - self.phys_start < self.region_size as u64"), st)
    else
      GiveBack(st, k, DeallocBitSpec(st.layers, st.bits, BlockIndex(st.physStart, start, k), k))
  }

  /** The part of `deallocate_frame` after `dealloc_bit` returned `o`. */
  function GiveBack(st: AllocState, k: nat, o: Outcome<()>): (r: (Run<()>, AllocState))
    ensures r.1.layers == st.layers && |r.1.bits| == |o.bits|
    ensures r.1.physStart == st.physStart && r.1.regionSize == st.regionSize
  {
    if o.result.Err? then (Panics("called `Result::unwrap()` on an `Err` value"), st.(bits := o.bits))
    else (Returns(()), st.(bits := o.bits, remaining := st.remaining + PAGE_SIZE * Pow2(k)))
  }

  /** A frame allocation keeps the allocator consistent. A frame it
      returns is aligned to its size relative to the region start, its
      block was available and is now allocated, and `remaining` fell by
      exactly the frame size; "no frame" changes nothing; and in a region
      whose start is aligned to the frame size it never panics. */
  lemma {:induction false} FrameStepSound(st: AllocState, k: nat)
    requires StateConsistent(st)
    ensures FrameSound(st, k, FrameStep(st, k))
  {
    FrameAlloc(st.layers, st.bits, k);
    TakeFrameSound(st, k, AllocRangeSpec(st.layers, st.bits, Pow2(k), 0));
  }

  /** What `FrameStepSound` promises of one allocation `step` of 2^k
      pages from `st`. */
  ghost predicate FrameSound(st: AllocState, k: nat, step: (Run<Option<nat>>, AllocState))
    requires StateConsistent(st)
  {
    var (r, after) := step;
    && StateConsistent(after)
    && after.physStart == st.physStart && after.regionSize == st.regionSize && after.layers == st.layers
    && (r == Returns(None) ==> after == st)
    && (r.Returns? && r.value.Some? ==>
      var f := r.value.value;
      var a := (f - st.physStart) / (PAGE_SIZE * Pow2(k));
      && st.physStart <= f && (f - st.physStart) % (PAGE_SIZE * Pow2(k)) == 0
      && a < LayerLen(st.layers, k)
      && Available(st.bits, st.layers, k, a) && Allocated(after.bits, st.layers, k, a)
      && after.remaining == st.remaining - PAGE_SIZE * Pow2(k))
    && (st.physStart % (PAGE_SIZE * Pow2(k)) == 0 ==> r.Returns?)
  }

  /** `FrameSound` from the facts `FrameAlloc` gives about the outcome of
      `alloc_range`. */
  lemma TakeFrameSound(st: AllocState, k: nat, o: Run<Outcome<Range>>)
    requires StateConsistent(st)
    requires o.Returns? && |o.value.bits| == |st.bits| && Inv(o.value.bits, st.layers)
    requires o.value.result.Err? ==> o.value.bits == st.bits
    requires o.value.result.Ok? ==>
      var f := o.value.result.value;
      && f.start % Pow2(k) == 0
      && f.start / Pow2(k) < LayerLen(st.layers, k)
      && Available(st.bits, st.layers, k, f.start / Pow2(k))
      && Allocated(o.value.bits, st.layers, k, f.start / Pow2(k))
      && FreeUnits(o.value.bits, st.layers) + Pow2(k) == FreeUnits(st.bits, st.layers)
    ensures FrameSound(st, k, TakeFrame(st, k, o))
  {
    if o.value.result.Ok? {
      TakeFrameSoundOk(st, k, o, o.value.result.value.start, Pow2(k));
    }
  }

  /** `TakeFrameSound` when `alloc_range` returned the block of 2^k = `p`
      pages starting at page `fs`. */
  lemma TakeFrameSoundOk(st: AllocState, k: nat, o: Run<Outcome<Range>>, fs: nat, p: nat)
    requires StateConsistent(st) && p == Pow2(k)
    requires o.Returns? && |o.value.bits| == |st.bits| && Inv(o.value.bits, st.layers)
    requires o.value.result.Ok? && o.value.result.value.start == fs
    requires fs % p == 0 && fs / p < LayerLen(st.layers, k)
    requires Available(st.bits, st.layers, k, fs / p) && Allocated(o.value.bits, st.layers, k, fs / p)
    requires FreeUnits(o.value.bits, st.layers) + p == FreeUnits(st.bits, st.layers)
    ensures FrameSound(st, k, TakeFrame(st, k, o))
  {
    var f := st.physStart + fs * PAGE_SIZE;
    var after := st.(bits := o.value.bits, remaining := st.remaining - PAGE_SIZE * p);
    FrameAddress(st.physStart, fs, k);
    TakeFrameOk(st, k, o, fs);
    assert StateConsistent(after) by {
      Remaining(st.remaining, FreeUnits(st.bits, st.layers), FreeUnits(o.value.bits, st.layers), p, PAGE_SIZE);
    }
  }

  /** `TakeFrame` after `alloc_range` returned the block starting at page
      `fs`: the frame's address, the new bitmap and `remaining`. */
  lemma TakeFrameOk(st: AllocState, k: nat, o: Run<Outcome<Range>>, fs: nat)
    requires o.Returns? && |o.value.bits| == |st.bits| && o.value.result.Ok?
    requires o.value.result.value.start == fs
    ensures var f := st.physStart + fs * PAGE_SIZE;
      TakeFrame(st, k, o) == (if f % (PAGE_SIZE * Pow2(k)) == 0 then Returns(Some(f)) else Panics("called `Result::unwrap()` on an `Err` value"),
        st.(bits := o.value.bits, remaining := st.remaining - PAGE_SIZE * Pow2(k)))
  {
  }

  /** `remaining` kept as the free capacity in bytes when `p` pages are
      taken (`sign` = -1) or given back (`sign` = 1). */
  lemma Remaining(rem: int, before: int, after: int, p: int, page: int)
    requires rem == before * page
    ensures after + p == before ==> rem - page * p == after * page
    ensures after == before + p ==> rem + page * p == after * page
  {
    MulAdd(page, after, p);
  }

  /** The address of the frame whose first page is `fs`, a multiple of
      2^k: it lies a whole number of frames past the region start. */
  lemma FrameAddress(physStart: nat, fs: nat, k: nat)
    requires fs % Pow2(k) == 0
    ensures var f := physStart + fs * PAGE_SIZE;
      && (f - physStart) % (PAGE_SIZE * Pow2(k)) == 0
      && (f - physStart) / (PAGE_SIZE * Pow2(k)) == fs / Pow2(k)
      && f % (PAGE_SIZE * Pow2(k)) == physStart % (PAGE_SIZE * Pow2(k))
  {
    var a := fs / Pow2(k);
    var m := PAGE_SIZE * Pow2(k);
    assert fs == Pow2(k) * a;
    assert fs * PAGE_SIZE == m * a;
    MulDiv(m, a);
    ModAddMul(physStart, m, a);
  }

  /** A frame deallocation refuses a start outside the region and a block
      that is already free (both panic, the second with the bitmap
      unchanged). Giving back an allocated block succeeds, keeps the
      allocator consistent, makes the block available and raises
      `remaining` by exactly the frame size. */
  lemma {:induction false} DeallocStepSound(st: AllocState, start: nat, k: nat)
    requires StateConsistent(st)
    ensures DeallocSound(st, start, k, DeallocStep(st, start, k))
  {
    if st.physStart <= start < st.physStart + st.regionSize {
      var n := st.layers;
      var idx := BlockIndex(st.physStart, start, k);
      var o := DeallocBitSpec(n, st.bits, idx, k);
      assert DeallocStep(st, start, k) == GiveBack(st, k, o);
      DeallocBitRefusals(n, st.bits, idx, k);
      if k < n && idx < LayerLen(n, k) && Allocated(st.bits, n, k, idx) {
        FrameDealloc(n, st.bits, idx, k);
      }
      GiveBackSound(st, k, idx, o);
    }
  }

  /** What `DeallocStepSound` promises of one deallocation `step` of the
      2^k pages at `start` from `st`. */
  ghost predicate DeallocSound(st: AllocState, start: nat, k: nat, step: (Run<()>, AllocState))
    requires StateConsistent(st)
  {
    var (r, after) := step;
    && (!(st.physStart <= start < st.physStart + st.regionSize) ==> r.Panics? && after == st)
    && (st.physStart <= start < st.physStart + st.regionSize ==>
      var idx := BlockIndex(st.physStart, start, k);
      && (k < st.layers && idx < LayerLen(st.layers, k) && !Get(st.bits, st.layers, k, idx) ==> r.Panics? && after == st)
      && (k < st.layers && idx < LayerLen(st.layers, k) && Allocated(st.bits, st.layers, k, idx) ==>
        && r == Returns(()) && after.layers == st.layers && StateConsistent(after)
        && Available(after.bits, st.layers, k, idx)
        && after.remaining == st.remaining + PAGE_SIZE * Pow2(k)))
  }

  /** The unwrap of `dealloc_bit`'s outcome `o` for block `idx` of layer k. */
  lemma GiveBackSound(st: AllocState, k: nat, idx: nat, o: Outcome<()>)
    requires StateConsistent(st) && |o.bits| == |st.bits|
    ensures o.result.Err? && o.bits == st.bits ==> GiveBack(st, k, o).0.Panics? && GiveBack(st, k, o).1 == st
    ensures (o.result.Ok? && k < st.layers && idx < LayerLen(st.layers, k) && Inv(o.bits, st.layers)
      && Available(o.bits, st.layers, k, idx)
      && FreeUnits(o.bits, st.layers) == FreeUnits(st.bits, st.layers) + Pow2(k)) ==>
      var (r, after) := GiveBack(st, k, o);
      && r == Returns(()) && StateConsistent(after)
      && Available(after.bits, st.layers, k, idx)
      && after.remaining == st.remaining + PAGE_SIZE * Pow2(k)
  {
  }

  /** Giving back a frame just allocated (from an aligned region, and
      lying inside the region) succeeds and restores `remaining`. */
  lemma {:induction false} AllocFreeRoundTrip(st: AllocState, k: nat)
    requires StateConsistent(st) && st.physStart % (PAGE_SIZE * Pow2(k)) == 0
    ensures var (r, mid) := FrameStep(st, k);
      r.Returns? && (r.value.Some? && r.value.value < st.physStart + st.regionSize ==>
        var (r2, after) := DeallocStep(mid, r.value.value, k);
        r2 == Returns(()) && StateConsistent(after) && after.remaining == st.remaining)
  {
    FrameStepSound(st, k);
    var (r, mid) := FrameStep(st, k);
    if r.value.Some? && r.value.value < st.physStart + st.regionSize {
      var f := r.value.value;
      DeallocStepSound(mid, f, k);
      RoundTripStep(st, mid, f, k, DeallocStep(mid, f, k));
    }
  }

  /** Giving back the frame `f` an allocation from `st` returned, leading
      to `mid`, succeeds and restores `remaining`. */
  lemma RoundTripStep(st: AllocState, mid: AllocState, f: nat, k: nat, step: (Run<()>, AllocState))
    requires StateConsistent(st) && StateConsistent(mid) && f < st.physStart + st.regionSize
    requires FrameSound(st, k, (Returns(Some(f)), mid))
    requires DeallocSound(mid, f, k, step)
    ensures step.0 == Returns(()) && StateConsistent(step.1) && step.1.remaining == st.remaining
  {
  }
}
