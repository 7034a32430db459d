/** `align_up` and the page mapping of `init_heap` in
    `kernel/src/allocator/mod.rs`. The frame allocator and the page mapper
    are not part of this model: the answers of successive frame
    allocations are a parameter and every mapping is recorded as a
    (page, frame) pair. */
module Heap {
  import opened Base

  const HEAP_START: nat := 0xFFFF_E000_0000_0000
  const HEAP_SIZE: nat := 16 * 1024 * 1024
  const PAGE: nat := 4096

  /** `align_up(addr, align)`: `addr` when already aligned, else the next
      multiple of `align` above it. */
  function AlignUp(addr: nat, align: nat): nat
    requires align > 0
  {
    var remainder := addr % align;
    if remainder == 0 then addr else addr - remainder + align
  }

  /** `align_up` gives the least multiple of `align` that is at least
      `addr`: it is a multiple, it is not below `addr`, it is below
      `addr + align`, and it is `addr` itself exactly when `addr` is
      aligned. */
  lemma {:induction false} AlignUpLeast(addr: nat, align: nat)
    requires align > 0
    ensures var r := AlignUp(addr, align);
      && r % align == 0 && addr <= r < addr + align
      && (r == addr <==> addr % align == 0)
      && forall m: nat :: m % align == 0 && addr <= m ==> r <= m
  {
    var q := addr / align;
    assert addr == align * q + addr % align;
    var r := AlignUp(addr, align);
    if addr % align != 0 {
      assert r == align * (q + 1);
      MulDiv(align, q + 1);
      forall m: nat | m % align == 0 && addr <= m
        ensures r <= m
      {
        var k := m / align;
        assert m == align * k;
        if k <= q {
          MulMono(align, k, q);
        } else {
          MulMono(align, q + 1, k);
        }
      }
    } else {
      forall m: nat | m % align == 0 && addr <= m
        ensures r <= m
      {
      }
    }
  }

  /** The page holding address `a`. */
  function PageOf(a: nat): nat
  {
    a / PAGE
  }

  /** Pages `init_heap` maps: `Page::range_inclusive` from the page of
      `HEAP_START` to the page of `HEAP_START + HEAP_SIZE`, so the page
      holding the first byte past the heap is mapped as well. */
  function HeapPageCount(): nat
  {
    PageOf(HEAP_START + HEAP_SIZE) - PageOf(HEAP_START) + 1
  }

  /** The inclusive range holds HEAP_SIZE / 4096 + 1 pages. */
  lemma {:induction false} HeapPages()
    ensures HeapPageCount() == HEAP_SIZE / PAGE + 1 == 4097
  {
  }

  /** The error of `init_heap`. */
  datatype MapToError = FrameAllocationFailed

  /** `init_heap`: for each page of the range it asks for a frame (the
      `i`-th request is answered `frames(i)`), stopping at the first
      failure with `FrameAllocationFailed`, and maps the page to it. */
  method InitHeap(frames: nat -> Option<nat>) returns (r: Result<(), MapToError>, mapped: seq<(nat, nat)>)
    ensures r.Ok? <==> forall i :: 0 <= i < HeapPageCount() ==> frames(i).Some?
    ensures r.Err? ==> r.error == FrameAllocationFailed
    ensures |mapped| <= HeapPageCount()
    ensures forall i :: 0 <= i < |mapped| ==>
      frames(i).Some? && mapped[i] == (PageOf(HEAP_START) + i, frames(i).value)
    ensures r.Ok? ==> |mapped| == HeapPageCount()
    ensures r.Err? ==> frames(|mapped|).None?
  {
    var first, last := PageOf(HEAP_START), PageOf(HEAP_START + HEAP_SIZE);
    mapped := [];
    var page := first;
    while page <= last
      invariant first <= page <= last + 1
      invariant |mapped| == page - first
      invariant forall i :: 0 <= i < |mapped| ==>
        frames(i).Some? && mapped[i] == (first + i, frames(i).value)
    {
      var frame := frames(page - first);
      if frame.None? {
        return Err(FrameAllocationFailed), mapped;
      }
      mapped := mapped + [(page, frame.value)];
      page := page + 1;
    }
    r := Ok(());
  }
}
