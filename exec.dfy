/** The ELF loader of `kernel/src/process/exec.rs`: the header checks of
    `create_process_from_elf`, the page-by-page copy of each loadable
    segment, the initial kernel stack and the user stack that
    `create_process` builds. Frames and page tables are not modelled: the
    user half of an address space is a map from the start address of each
    mapped page to the 4096 bytes of the frame behind it. */
module Exec {
  import opened Base
  import opened Heap
  import BootFrames

  const EHDR_SIZE: nat := 64
  const PHDR_SIZE: nat := 56
  const PT_LOAD: nat := 1
  /** The ELF identification bytes 0x7F 'E' 'L' 'F'. */
  const ELF_MAGIC: seq<u8> := [0x7F, 0x45, 0x4C, 0x46]
  /** `EI_CLASS` of a 64-bit object (`ELFCLASS64`). */
  const ELFCLASS64: u8 := 2
  /** First address of the kernel's (upper) half of the address space. */
  const KERNEL_BASE: nat := 0xFFFF_8000_0000_0000
  /** One past the last canonical address of the user (lower) half. */
  const LOWER_HALF_END: nat := 0x0000_8000_0000_0000
  const STACK_TOP: nat := 0x1000_0000_0000
  const STACK_FRAMES: nat := 4
  const KERNEL_STACK_LEN: nat := 1024
  /** Size of an `InterruptStackFrameValue`: five 8-byte words. */
  const ISF_LEN: nat := 40
  /** Size of a `Context`: fifteen saved registers and `rip`. */
  const CONTEXT_LEN: nat := 128
  /** RFLAGS with only the interrupt-enable flag (bit 9) set. */
  const IF_FLAG: nat := 0x200

  const MAGIC_MISMATCH: string := "ELF64 Format Error: Magic number mismatch"
  const NOT_64_BIT: string := "ELF64 Format Error: 32-bit ELF file recieved"
  const KERNEL_MEMORY: string := "Cannot load into kernel memory"
  /** Reasons of panics raised by library code. */
  const OUT_OF_RANGE: string := "slice index out of range"
  const ADD_OVERFLOW: string := "attempt to add with overflow"
  const SUB_OVERFLOW: string := "attempt to subtract with overflow"
  const ALREADY_MAPPED: string := "map_to: page already mapped"

  function Min(a: nat, b: nat): nat
  {
    if a <= b then a else b
  }

  /** `n` zero bytes. */
  function Zeros(n: nat): (r: seq<u8>)
    ensures |r| == n && forall i :: 0 <= i < n ==> r[i] == 0
  {
    seq(n, _ => 0)
  }

  /** `a.saturating_sub(b)`. */
  function SatSub(a: nat, b: nat): nat
  {
    if a > b then a - b else 0
  }

  /** The little-endian field of `n` bytes at offset `off`; it fits in
      `n` bytes. */
  function Field(data: seq<u8>, off: nat, n: nat): (r: nat)
    requires off + n <= |data|
    ensures r < Pow256(n)
  {
    LeBytesOfValue(data[off..off + n]);
    LeValue(data[off..off + n])
  }

  /** The fields of an ELF64 program header the loader reads. */
  datatype ProgramHeader = ProgramHeader(kind: nat, offset: nat, vaddr: nat, filesz: nat)

  /** The `i`-th program header of the table that starts right after the
      ELF header: `p_type` at 0, `p_offset` at 8, `p_vaddr` at 16 and
      `p_filesz` at 32. */
  function ProgramHeaderAt(data: seq<u8>, i: nat): ProgramHeader
    requires EHDR_SIZE + i * PHDR_SIZE + PHDR_SIZE <= |data|
  {
    var b := EHDR_SIZE + i * PHDR_SIZE;
    ProgramHeader(Field(data, b, 4), Field(data, b + 8, 8), Field(data, b + 16, 8), Field(data, b + 32, 8))
  }

  /** `slice_from_bytes_len(&data[64..][..phnum * 56], phnum)`. */
  function ProgramHeaders(data: seq<u8>, phnum: nat): (r: seq<ProgramHeader>)
    requires EHDR_SIZE + phnum * PHDR_SIZE <= |data|
    ensures |r| == phnum
  {
    seq(phnum, i requires 0 <= i < phnum => ProgramHeaderAt(data, i))
  }

  /** A segment to load: its bytes in the file and its virtual address. */
  datatype LoadSegment = LoadSegment(code: seq<u8>, va: u64)

  /** The `filter_map` closure over program headers: headers other than
      `PT_LOAD` are skipped; an address from 0xFFFF_8000_0000_0000 up fails
      the assertion; the file bytes are sliced (a range past the end
      panics) and the address is passed to `VirtAddr::new`, which
      sign-extends an address with bit 47 set into the upper half. */
  function SegmentOf(data: seq<u8>, ph: ProgramHeader): Run<Option<LoadSegment>>
  {
    if ph.kind != PT_LOAD then Returns(None)
    else if ph.vaddr >= KERNEL_BASE then Panics(KERNEL_MEMORY)
    else if ph.offset > |data| || ph.filesz > |data| - ph.offset then Panics(OUT_OF_RANGE)
    else match BootFrames.VirtAddrNew(ph.vaddr)
      case Panics(m) => Panics(m)
      case Returns(va) => Returns(Some(LoadSegment(data[ph.offset..ph.offset + ph.filesz], va)))
  }

  /** Where a `PT_LOAD` header's bytes go: `p_vaddr` itself below 2^47,
      `p_vaddr` sign-extended into the upper half from 2^47 to 2^48, and
      nowhere from 2^48 up (`VirtAddr::new` panics); the assertion on the
      raw `p_vaddr` lets the first two ranges through. */
  lemma {:induction false} SegmentAddress(data: seq<u8>, ph: ProgramHeader)
    requires ph.kind == PT_LOAD && ph.offset + ph.filesz <= |data|
    ensures ph.vaddr < LOWER_HALF_END ==> SegmentOf(data, ph) == Returns(Some(LoadSegment(data[ph.offset..ph.offset + ph.filesz], ph.vaddr)))
    ensures LOWER_HALF_END <= ph.vaddr < 0x1_0000_0000_0000 ==>
      && SegmentOf(data, ph).Returns? && SegmentOf(data, ph).value.Some?
      && SegmentOf(data, ph).value.value.va == ph.vaddr + 0xFFFF_0000_0000_0000
      && SegmentOf(data, ph).value.value.va >= KERNEL_BASE
    ensures 0x1_0000_0000_0000 <= ph.vaddr < KERNEL_BASE ==> SegmentOf(data, ph) == Panics(BootFrames.VIRT_ADDR_NEW)
    ensures KERNEL_BASE <= ph.vaddr ==> SegmentOf(data, ph) == Panics(KERNEL_MEMORY)
  {
  }

  /** A header with `p_vaddr` = 0x8000_0000_1000 passes the kernel-memory
      assertion and is loaded at 0xFFFF_8000_0000_1000, in the kernel's
      half. */
  lemma {:induction false} KernelHalfSegment(data: seq<u8>)
    requires |data| >= 0x10
    ensures var seg := SegmentOf(data, ProgramHeader(PT_LOAD, 0, 0x8000_0000_1000, 0x10));
      seg == Returns(Some(LoadSegment(data[..0x10], 0xFFFF_8000_0000_1000)))
  {
  }

  /** `start.align_down(4096)`. */
  function AlignDown(a: nat): nat
  {
    BootFrames.AlignDown(a)
  }

  /** A page the loop of `create_process` visits for a segment of `len`
      bytes at `start`: page-aligned, from `align_down(start)` up to but
      excluding `align_up(start + len)`. */
  predicate Visited(start: nat, len: nat, page: nat)
  {
    page % PAGE == 0 && AlignDown(start) <= page < AlignUp(start + len, PAGE)
  }

  /** On a visited page, `code_offset` does not pass the end of the
      segment and `target_offset` stays inside the page. */
  lemma {:induction false} VisitedOffsets(start: nat, len: nat, page: nat)
    requires Visited(start, len, page)
    ensures SatSub(page, start) <= len && SatSub(start, page) < PAGE
    ensures page > start ==> page < start + len
  {
    AlignUpLeast(start + len, PAGE);
  }

  /** What a page of the segment is meant to hold: the segment's byte
      wherever the segment covers the address, zero elsewhere. */
  function PageContent(code: seq<u8>, start: nat, page: nat): (r: seq<u8>)
    ensures |r| == PAGE
  {
    seq(PAGE, i => if start <= page + i < start + |code| then code[page + i - start] else 0)
  }

  /** One page of the segment as the loop fills it: `target_offset` zeros,
      `target_len` bytes of the segment from `code_offset`, zeros to the
      end, with `target_len` bounded by the room left on the page. */
  function Chunk(code: seq<u8>, start: nat, page: nat): seq<u8>
    requires Visited(start, |code|, page)
  {
    VisitedOffsets(start, |code|, page);
    var codeOffset := SatSub(page, start);
    var targetOffset := SatSub(start, page);
    var targetLen := Min(|code| - codeOffset, PAGE - targetOffset);
    Zeros(targetOffset) + code[codeOffset..codeOffset + targetLen] + Zeros(PAGE - targetOffset - targetLen)
  }

  /** The same page as written at exec.rs:85: `target_len` is bounded by
      4096 only, so `target_chunk[target_offset..target_offset +
      target_len]` panics when it runs past the page. */
  function ChunkAsWritten(code: seq<u8>, start: nat, page: nat): Run<seq<u8>>
    requires Visited(start, |code|, page)
  {
    VisitedOffsets(start, |code|, page);
    var codeOffset := SatSub(page, start);
    var targetOffset := SatSub(start, page);
    var targetLen := Min(|code| - codeOffset, PAGE);
    if targetOffset + targetLen > PAGE then Panics(OUT_OF_RANGE)
    else Returns(Zeros(targetOffset) + code[codeOffset..codeOffset + targetLen] + Zeros(PAGE - targetOffset - targetLen))
  }

  /** Every page the loop fills holds exactly the segment's bytes that fall
      on it and zeros around them. */
  lemma {:induction false} ChunkContent(code: seq<u8>, start: nat, page: nat)
    requires Visited(start, |code|, page)
    ensures Chunk(code, start, page) == PageContent(code, start, page)
  {
    VisitedOffsets(start, |code|, page);
    var codeOffset := SatSub(page, start);
    var targetOffset := SatSub(start, page);
    var targetLen := Min(|code| - codeOffset, PAGE - targetOffset);
    var c := Chunk(code, start, page);
    var p := PageContent(code, start, page);
    assert |c| == PAGE;
    forall i | 0 <= i < PAGE
      ensures c[i] == p[i]
    {
      if i < targetOffset {
        assert c[i] == 0;
      } else if i < targetOffset + targetLen {
        assert c[i] == code[codeOffset + i - targetOffset];
        assert page + i - start == codeOffset + i - targetOffset;
      } else {
        assert c[i] == 0;
        assert page + i >= start + |code|;
      }
    }
  }

  /** The source's page panics exactly on the first page of a segment that
      starts part-way into that page and runs past its end; on every other
      page it builds the same bytes as `Chunk`. */
  lemma {:induction false} ChunkAsWrittenPanics(code: seq<u8>, start: nat, page: nat)
    requires Visited(start, |code|, page)
    ensures ChunkAsWritten(code, start, page).Panics? <==> page < start && page + PAGE < start + |code|
    ensures ChunkAsWritten(code, start, page).Returns? ==>
      ChunkAsWritten(code, start, page).value == Chunk(code, start, page)
  {
    VisitedOffsets(start, |code|, page);
  }

  /** A 4096-byte segment loaded at 0x40_1001 makes the source panic on its
      first page, 0x40_1000. */
  lemma {:induction false} UnalignedSegmentPanics()
    ensures Visited(0x40_1001, PAGE, 0x40_1000)
    ensures ChunkAsWritten(seq(PAGE, _ => 0x90), 0x40_1001, 0x40_1000).Panics?
  {
    AlignUpLeast(0x40_1001 + PAGE, PAGE);
    ChunkAsWrittenPanics(seq(PAGE, _ => 0x90), 0x40_1001, 0x40_1000);
  }

  /** The pages of one segment from `page` on, each mapped in turn;
      `map_to(...).unwrap()` panics on a page that is already mapped. */
  function LoadFrom(pages: map<nat, seq<u8>>, code: seq<u8>, start: nat, page: nat): Run<map<nat, seq<u8>>>
    requires page % PAGE == 0 && AlignDown(start) <= page
    decreases AlignUp(start + |code|, PAGE) - page
  {
    if page >= AlignUp(start + |code|, PAGE) then Returns(pages)
    else if page in pages then Panics(ALREADY_MAPPED)
    else LoadFrom(pages[page := Chunk(code, start, page)], code, start, page + PAGE)
  }

  /** One turn of the page loop: a page already mapped panics, any other
      page is filled and mapped before the loop goes on to the next. */
  lemma {:induction false} LoadFromStep(pages: map<nat, seq<u8>>, code: seq<u8>, start: nat, page: nat)
    requires Visited(start, |code|, page)
    ensures (page + PAGE) % PAGE == 0
    ensures page in pages ==> LoadFrom(pages, code, start, page) == Panics(ALREADY_MAPPED)
    ensures page !in pages ==>
      LoadFrom(pages, code, start, page) == LoadFrom(pages[page := Chunk(code, start, page)], code, start, page + PAGE)
  {
  }

  /** A page that ends where the first `k` bytes of the segment end, or
      before, is filled the same from those `k` bytes as from the whole
      segment. */
  lemma {:induction false} ChunkPrefix(code: seq<u8>, start: nat, page: nat, k: nat)
    requires k <= |code| && Visited(start, k, page) && page + PAGE <= start + k
    ensures Visited(start, |code|, page)
    ensures Chunk(code[..k], start, page) == Chunk(code, start, page)
  {
    AlignUpLeast(start + |code|, PAGE);
    ChunkContent(code[..k], start, page);
    ChunkContent(code, start, page);
    assert PageContent(code[..k], start, page) == PageContent(code, start, page);
  }

  /** Whether a lower-half segment runs past 2^47. */
  predicate Crossing(seg: LoadSegment)
  {
    seg.va < LOWER_HALF_END < seg.va + |seg.code|
  }

  /** The part of a segment the page loop loads: the part below 2^47 of a
      segment that runs past it, else the whole segment. */
  function LoadedPart(seg: LoadSegment): (code: seq<u8>)
    ensures code <= seg.code
    ensures Crossing(seg) ==> seg.va + |code| == LOWER_HALF_END
  {
    if Crossing(seg) then seg.code[..LOWER_HALF_END - seg.va] else seg.code
  }

  /** The page loop of `create_process` for one segment. Its end is
      `(start + code.len()).align_up(4096)` on `VirtAddr`s: the `u64` sum
      and the rounding up panic on overflow, and the sum goes through
      `VirtAddr::new`. A lower-half segment that runs past 2^47 has its end
      sign-extended into the upper half: the loop maps the segment's pages
      below 2^47, steps over the non-canonical hole to
      0xFFFF_8000_0000_0000, and there `code.len() - code_offset`
      underflows. Only which of the pages below 2^47 are mapped already
      decides how that segment panics, so they are loaded from the part of
      the segment below 2^47. */
  function SegmentPages(pages: map<nat, seq<u8>>, seg: LoadSegment): Run<map<nat, seq<u8>>>
  {
    var sum := seg.va + |seg.code|;
    if sum > U64_MAX then Panics(ADD_OVERFLOW)
    else match BootFrames.VirtAddrNew(sum)
      case Panics(m) => Panics(m)
      case Returns(end) =>
        if AlignUp(end, PAGE) > U64_MAX then Panics(ADD_OVERFLOW)
        else if Crossing(seg) then
          match LoadFrom(pages, LoadedPart(seg), seg.va, AlignDown(seg.va))
          case Panics(m) => Panics(m)
          case Returns(_) => Panics(SUB_OVERFLOW)
        else LoadFrom(pages, seg.code, seg.va, AlignDown(seg.va))
  }

  /** A page the loop visits, below its stop, lies in the segment and in
      its loaded part, and is filled the same from either. */
  lemma {:induction false} LoopPage(seg: LoadSegment, page: nat)
    requires page % PAGE == 0 && AlignDown(seg.va) <= page
    requires page < if Crossing(seg) then LOWER_HALF_END else AlignUp(seg.va + |seg.code|, PAGE)
    ensures Visited(seg.va, |seg.code|, page) && Visited(seg.va, |LoadedPart(seg)|, page)
    ensures Chunk(LoadedPart(seg), seg.va, page) == Chunk(seg.code, seg.va, page)
  {
    AlignUpLeast(seg.va + |seg.code|, PAGE);
    if Crossing(seg) {
      AlignUpLeast(LOWER_HALF_END, PAGE);
      assert page / PAGE < LOWER_HALF_END / PAGE;
      assert page + PAGE <= LOWER_HALF_END;
      ChunkPrefix(seg.code, seg.va, page, LOWER_HALF_END - seg.va);
    }
  }

  /** Once the checks on the end have passed, the page loop ends at the
      rounded-up end of the part of the segment it loads, and its outcome
      is that part's `LoadFrom`, turned into the underflow for a segment
      that runs past 2^47. */
  lemma {:induction false} SegmentPagesLoop(pages: map<nat, seq<u8>>, seg: LoadSegment)
    requires seg.va + |seg.code| <= U64_MAX
    requires BootFrames.VirtAddrNew(seg.va + |seg.code|).Returns?
    requires AlignUp(BootFrames.VirtAddrNew(seg.va + |seg.code|).value, PAGE) <= U64_MAX
    ensures AlignUp(seg.va + |LoadedPart(seg)|, PAGE) ==
      if Crossing(seg) then LOWER_HALF_END else AlignUp(seg.va + |seg.code|, PAGE)
    ensures SegmentPages(pages, seg) ==
      if Crossing(seg) then
        match LoadFrom(pages, LoadedPart(seg), seg.va, AlignDown(seg.va))
        case Panics(m) => Panics(m)
        case Returns(_) => Panics(SUB_OVERFLOW)
      else LoadFrom(pages, LoadedPart(seg), seg.va, AlignDown(seg.va))
  {
    AlignUpLeast(LOWER_HALF_END, PAGE);
  }

  /** For a segment at a canonical address, the page loop returns exactly
      when the rounded-up end fits in 64 bits, a lower-half segment ends
      by 2^47, and none of its pages is mapped already; it then loads the
      segment as `LoadFrom` does. */
  lemma {:induction false} SegmentPagesMeaning(pages: map<nat, seq<u8>>, seg: LoadSegment)
    requires BootFrames.Canonical(seg.va)
    ensures SegmentPages(pages, seg).Returns? <==>
      && AlignUp(seg.va + |seg.code|, PAGE) <= U64_MAX
      && (seg.va < LOWER_HALF_END ==> seg.va + |seg.code| <= LOWER_HALF_END)
      && LoadFrom(pages, seg.code, seg.va, AlignDown(seg.va)).Returns?
    ensures SegmentPages(pages, seg).Returns? ==>
      SegmentPages(pages, seg) == LoadFrom(pages, seg.code, seg.va, AlignDown(seg.va))
  {
    var sum := seg.va + |seg.code|;
    AlignUpLeast(sum, PAGE);
    if sum <= U64_MAX && BootFrames.VirtAddrNew(sum).Returns? {
      var end := BootFrames.VirtAddrNew(sum).value;
      AlignUpLeast(end, PAGE);
      if seg.va < LOWER_HALF_END && sum <= LOWER_HALF_END {
        AlignUpLeast(LOWER_HALF_END, PAGE);
      }
    }
  }

  /** A lower-half segment of 0x2000 bytes at 0x7FFF_FFFF_F000 runs past
      2^47, and its page loop panics on the underflow once it has mapped
      the segment's one page below 2^47. */
  lemma {:induction false} CrossingSegmentPanics(code: seq<u8>)
    requires |code| == 0x2000
    ensures SegmentPages(map[], LoadSegment(code, 0x7FFF_FFFF_F000)) == Panics(SUB_OVERFLOW)
  {
    var start := 0x7FFF_FFFF_F000;
    var part := code[..LOWER_HALF_END - start];
    assert AlignDown(start) == start;
    AlignUpLeast(start + |part|, PAGE);
    AlignUpLeast(start + |code|, PAGE);
    var one := map[start := Chunk(part, start, start)];
    assert LoadFrom(map[], part, start, start) == LoadFrom(one, part, start, start + PAGE);
  }

  /** The byte at user address `a`, if its page is mapped. */
  function Read(pages: map<nat, seq<u8>>, a: nat): Option<u8>
  {
    var page := AlignDown(a);
    if page in pages && a - page < |pages[page]| then Some(pages[page][a - page]) else None
  }

  /** Two page-aligned addresses that differ differ by a page at least. */
  lemma {:induction false} NextPage(p: nat, q: nat)
    requires p % PAGE == 0 && q % PAGE == 0 && p < q
    ensures p + PAGE <= q
  {
  }

  /** Loading a segment from `page` on panics exactly when one of the pages
      still to visit is mapped already; otherwise it keeps every mapped page,
      adds exactly the pages still to visit, and each of them holds
      `PageContent`. */
  lemma {:induction false} LoadFromMeaning(pages: map<nat, seq<u8>>, code: seq<u8>, start: nat, page: nat)
    requires page % PAGE == 0 && AlignDown(start) <= page
    ensures LoadFrom(pages, code, start, page).Panics? <==>
      exists q :: q in pages && q % PAGE == 0 && page <= q < AlignUp(start + |code|, PAGE)
    ensures LoadFrom(pages, code, start, page).Returns? ==>
      var after := LoadFrom(pages, code, start, page).value;
      && Extends(pages, after)
      && (forall q :: q in after <==> q in pages || (q % PAGE == 0 && page <= q < AlignUp(start + |code|, PAGE)))
      && (forall q :: q in after && q !in pages ==> after[q] == PageContent(code, start, q))
    decreases AlignUp(start + |code|, PAGE) - page
  {
    var stop := AlignUp(start + |code|, PAGE);
    if page >= stop {
    } else if page in pages {
      assert page in pages && page % PAGE == 0 && page <= page < stop;
    } else {
      var next := pages[page := Chunk(code, start, page)];
      ChunkContent(code, start, page);
      assert (page + PAGE) % PAGE == 0;
      LoadFromMeaning(next, code, start, page + PAGE);
      var result := LoadFrom(pages, code, start, page);
      assert result == LoadFrom(next, code, start, page + PAGE);
      forall q | q % PAGE == 0 && page < q
        ensures page + PAGE <= q
      {
        NextPage(page, q);
      }
      if result.Panics? {
        var q :| q in next && q % PAGE == 0 && page + PAGE <= q < stop;
        assert q in pages && q % PAGE == 0 && page <= q < stop;
      } else {
        LoadStepMeaning(pages, code, start, page, stop, next, result.value);
      }
    }
  }

  /** One page of `LoadFrom`: if loading from the next page on extends
      `next` (this page's chunk added) by exactly the pages still to visit,
      loading from this page extends `pages` by this page and those. */
  lemma {:induction false} LoadStepMeaning(pages: map<nat, seq<u8>>, code: seq<u8>, start: nat, page: nat, stop: nat,
                                           next: map<nat, seq<u8>>, after: map<nat, seq<u8>>)
    requires page !in pages && next == pages[page := PageContent(code, start, page)]
    requires Extends(next, after)
    requires forall q :: q in after <==> q in next || (q % PAGE == 0 && page + PAGE <= q < stop)
    requires forall q :: q in after && q !in next ==> after[q] == PageContent(code, start, q)
    requires forall q | q % PAGE == 0 && page < q :: page + PAGE <= q
    requires page % PAGE == 0 && page < stop
    ensures Extends(pages, after)
    ensures forall q :: q in after <==> q in pages || (q % PAGE == 0 && page <= q < stop)
    ensures forall q :: q in after && q !in pages ==> after[q] == PageContent(code, start, q)
  {
    forall q | q in pages
      ensures q in after && after[q] == pages[q]
    {
      assert q != page && next[q] == pages[q];
    }
    forall q
      ensures q in after <==> q in pages || (q % PAGE == 0 && page <= q < stop)
    {
      if q in after && q !in pages && q != page {
        assert q in next || (q % PAGE == 0 && page + PAGE <= q < stop);
      }
    }
    forall q | q in after && q !in pages
      ensures after[q] == PageContent(code, start, q)
    {
      if q == page {
        assert after[q] == next[q];
      }
    }
  }

  /** A loaded segment: a `PT_LOAD` header whose `p_vaddr` `VirtAddr::new`
      accepts and whose file range is inside the file; a lower-half segment
      ends by 2^47; every byte of the range is readable at the address
      `VirtAddr::new` makes of `p_vaddr` onwards. */
  ghost predicate Loaded(pages: map<nat, seq<u8>>, data: seq<u8>, ph: ProgramHeader)
  {
    && ph.vaddr < 0x1_0000_0000_0000
    && ph.offset + ph.filesz <= |data|
    && (ph.vaddr < LOWER_HALF_END ==> ph.vaddr + ph.filesz <= LOWER_HALF_END)
    && var va := BootFrames.VirtAddrNew(ph.vaddr).value;
      forall a :: va <= a < va + ph.filesz ==> Read(pages, a) == Some(data[ph.offset + a - va])
  }

  /** Each address of a loaded segment lies on a visited page. */
  lemma {:induction false} AddressVisited(start: nat, len: nat, a: nat)
    requires start <= a < start + len
    ensures Visited(start, len, AlignDown(a))
  {
    AlignUpLeast(start + len, PAGE);
    if AlignDown(a) < AlignDown(start) {
      NextPage(AlignDown(a), AlignDown(start));
    }
  }

  /** After loading a whole segment every byte of it reads back at its
      address. */
  lemma {:induction false} SegmentReadable(pages: map<nat, seq<u8>>, code: seq<u8>, start: nat)
    requires LoadFrom(pages, code, start, AlignDown(start)).Returns?
    ensures var after := LoadFrom(pages, code, start, AlignDown(start)).value;
      && Extends(pages, after)
      && forall a :: start <= a < start + |code| ==> Read(after, a) == Some(code[a - start])
  {
    var after := LoadFrom(pages, code, start, AlignDown(start)).value;
    LoadFromMeaning(pages, code, start, AlignDown(start));
    forall a | start <= a < start + |code|
      ensures Read(after, a) == Some(code[a - start])
    {
      var q := AlignDown(a);
      AddressVisited(start, |code|, a);
      assert q !in pages;
      assert after[q] == PageContent(code, start, q);
      assert q + (a - q) == a;
    }
  }

  /** Reading an extended map gives what the original map held. */
  lemma {:induction false} LoadedExtends(before: map<nat, seq<u8>>, after: map<nat, seq<u8>>, data: seq<u8>, ph: ProgramHeader)
    requires Extends(before, after) && Loaded(before, data, ph)
    ensures Loaded(after, data, ph)
  {
    var va := BootFrames.VirtAddrNew(ph.vaddr).value;
    forall a | va <= a < va + ph.filesz
      ensures Read(after, a) == Some(data[ph.offset + a - va])
    {
      assert Read(before, a).Some?;
    }
  }

  /** The loop of `create_process` over the segments the `filter_map`
      yields, in program-header order; the first panic ends it. */
  function LoadAll(pages: map<nat, seq<u8>>, data: seq<u8>, phs: seq<ProgramHeader>): Run<map<nat, seq<u8>>>
    decreases |phs|
  {
    if phs == [] then Returns(pages)
    else match SegmentOf(data, phs[0])
      case Panics(m) => Panics(m)
      case Returns(None) => LoadAll(pages, data, phs[1..])
      case Returns(Some(seg)) =>
        match SegmentPages(pages, seg)
        case Panics(m) => Panics(m)
        case Returns(next) => LoadAll(next, data, phs[1..])
  }

  /** One loaded `PT_LOAD` header is `Loaded` in what its load returns. */
  lemma {:induction false} SegmentLoaded(pages: map<nat, seq<u8>>, data: seq<u8>, ph: ProgramHeader)
    requires SegmentOf(data, ph).Returns? && SegmentOf(data, ph).value.Some?
    requires SegmentPages(pages, SegmentOf(data, ph).value.value).Returns?
    ensures var after := SegmentPages(pages, SegmentOf(data, ph).value.value).value;
      Extends(pages, after) && Loaded(after, data, ph)
  {
    var seg := SegmentOf(data, ph).value.value;
    SegmentPagesMeaning(pages, seg);
    SegmentReadable(pages, seg.code, seg.va);
  }

  /** When loading every segment succeeds, no mapped page changed, and
      every `PT_LOAD` header has a `p_vaddr` below 2^48, a file range
      inside the file, ends by 2^47 if it starts below, and has its bytes
      readable from the address `VirtAddr::new` makes of `p_vaddr`. */
  lemma {:induction false} LoadAllMeaning(pages: map<nat, seq<u8>>, data: seq<u8>, phs: seq<ProgramHeader>)
    requires LoadAll(pages, data, phs).Returns?
    ensures var after := LoadAll(pages, data, phs).value;
      && Extends(pages, after)
      && forall i :: 0 <= i < |phs| && phs[i].kind == PT_LOAD ==> Loaded(after, data, phs[i])
    decreases |phs|
  {
    if phs != [] {
      var after := LoadAll(pages, data, phs).value;
      var next := pages;
      if SegmentOf(data, phs[0]).value.Some? {
        var seg := SegmentOf(data, phs[0]).value.value;
        next := SegmentPages(pages, seg).value;
        SegmentLoaded(pages, data, phs[0]);
        LoadAllMeaning(next, data, phs[1..]);
        LoadedExtends(next, after, data, phs[0]);
      } else {
        LoadAllMeaning(next, data, phs[1..]);
      }
      forall i | 0 <= i < |phs| && phs[i].kind == PT_LOAD
        ensures Loaded(after, data, phs[i])
      {
        if i > 0 {
          assert phs[i] == phs[1..][i - 1];
        }
      }
    }
  }

  /** The start of the `i`-th user stack page, `STACK_TOP - (i + 1) * 4096`. */
  function StackPage(i: nat): nat
    requires i < STACK_FRAMES
  {
    STACK_TOP - (i + 1) * PAGE
  }

  /** The user stack loop from frame `i` on: each page is zero-filled and
      mapped; a page already mapped panics. */
  function MapStack(pages: map<nat, seq<u8>>, i: nat): Run<map<nat, seq<u8>>>
    requires i <= STACK_FRAMES
    decreases STACK_FRAMES - i
  {
    if i == STACK_FRAMES then Returns(pages)
    else if StackPage(i) in pages then Panics(ALREADY_MAPPED)
    else MapStack(pages[StackPage(i) := Zeros(PAGE)], i + 1)
  }

  /** The user stack loop panics exactly when a segment already took one of
      its pages; otherwise it keeps every page and every byte of the
      16 KiB below `STACK_TOP` reads zero. */
  lemma {:induction false} MapStackMeaning(pages: map<nat, seq<u8>>, i: nat)
    requires i <= STACK_FRAMES
    ensures MapStack(pages, i).Panics? <==> exists j :: i <= j < STACK_FRAMES && StackPage(j) in pages
    ensures MapStack(pages, i).Returns? ==>
      var after := MapStack(pages, i).value;
      && Extends(pages, after)
      && forall a :: StackPage(STACK_FRAMES - 1) <= a < STACK_TOP - i * PAGE ==> Read(after, a) == Some(0)
    decreases STACK_FRAMES - i
  {
    if i < STACK_FRAMES && StackPage(i) !in pages {
      var next := pages[StackPage(i) := Zeros(PAGE)];
      MapStackMeaning(next, i + 1);
      if MapStack(pages, i).Returns? {
        var after := MapStack(pages, i).value;
        forall a | StackPage(STACK_FRAMES - 1) <= a < STACK_TOP - i * PAGE
          ensures Read(after, a) == Some(0)
        {
          if a >= STACK_TOP - (i + 1) * PAGE {
            assert AlignDown(a) == StackPage(i);
          }
        }
      }
    }
  }

  /** The five words of the interrupt stack frame `iretq` pops, in
      memory order: `rip` = the entry point, `cs`, RFLAGS with only IF
      set, `rsp` = `STACK_TOP`, `ss`. */
  function IsfBytes(entry: nat, cs: nat, ss: nat): (r: seq<u8>)
    ensures |r| == ISF_LEN
  {
    LeBytes(entry, 8) + LeBytes(cs, 8) + LeBytes(IF_FLAG, 8) + LeBytes(STACK_TOP, 8) + LeBytes(ss, 8)
  }

  /** A `Context`: fifteen zeroed registers, then `rip` = `trapret`. */
  function ContextBytes(trapret: nat): (r: seq<u8>)
    ensures |r| == CONTEXT_LEN
  {
    Zeros(15 * 8) + LeBytes(trapret, 8)
  }

  /** The 1024-byte kernel stack of a new process. */
  function KernelStack(entry: nat, cs: nat, ss: nat, trapret: nat): seq<u8>
  {
    Zeros(KERNEL_STACK_LEN - ISF_LEN - CONTEXT_LEN) + ContextBytes(trapret) + IsfBytes(entry, cs, ss)
  }

  lemma {:induction false} Pow256Eight()
    ensures Pow256(8) == 0x1_0000_0000_0000_0000
  {
    assert Pow256(1) == 0x100;
    assert Pow256(2) == 0x1_0000;
    assert Pow256(4) == 0x1_0000_0000 by {
      assert Pow256(3) == 0x100_0000;
    }
    assert Pow256(6) == 0x1_0000_0000_0000 by {
      assert Pow256(5) == 0x100_0000_0000;
    }
    assert Pow256(7) == 0x100_0000_0000_0000;
  }

  /** The 8-byte little-endian word at offset `off` of `s`. */
  function Word(s: seq<u8>, off: nat): nat
    requires off + 8 <= |s|
  {
    LeValue(s[off..off + 8])
  }

  /** The kernel stack as `switch` and `iretq` read it: the context
      pointer is 1024 - 40 - 128 = 856; from there the fifteen registers
      pop as zero and `ret` takes `trapret`; the interrupt frame above it
      ends at the top of the stack and gives `iretq` the entry point, the
      user code selector, RFLAGS with IF set, `STACK_TOP` and the user
      data selector. */
  lemma {:induction false} KernelStackLayout(entry: u64, cs: u64, ss: u64, trapret: u64)
    ensures KERNEL_STACK_LEN - ISF_LEN - CONTEXT_LEN == 856
    ensures var s := KernelStack(entry, cs, ss, trapret);
      && |s| == KERNEL_STACK_LEN
      && (forall k :: 0 <= k < 15 ==> Word(s, 856 + 8 * k) == 0)
      && Word(s, 976) == trapret
      && Word(s, 984) == entry
      && Word(s, 992) == cs
      && Word(s, 1000) == IF_FLAG
      && Word(s, 1008) == STACK_TOP
      && Word(s, 1016) == ss
  {
    var z: seq<u8> := Zeros(856);
    var ctx := ContextBytes(trapret);
    var isf := IsfBytes(entry, cs, ss);
    var s := KernelStack(entry, cs, ss, trapret);
    assert s == z + ctx + isf;
    ContextWords(trapret);
    IsfWords(entry, cs, ss);
    StackWords(z, ctx, isf);
    forall k | 0 <= k < 15
      ensures Word(s, 856 + 8 * k) == 0
    {
      assert Word(s, 856 + 8 * k) == Word(ctx, 8 * k);
    }
  }

  /** The words of a 1024-byte stack made of 856 bytes, a 128-byte context
      and a 40-byte frame are the words of the context and of the frame. */
  lemma {:induction false} StackWords(z: seq<u8>, ctx: seq<u8>, isf: seq<u8>)
    requires |z| == 856 && |ctx| == CONTEXT_LEN && |isf| == ISF_LEN
    ensures forall k :: 0 <= k < 15 ==> Word(z + ctx + isf, 856 + 8 * k) == Word(ctx, 8 * k)
    ensures Word(z + ctx + isf, 976) == Word(ctx, 120)
    ensures Word(z + ctx + isf, 984) == Word(isf, 0)
    ensures Word(z + ctx + isf, 992) == Word(isf, 8)
    ensures Word(z + ctx + isf, 1000) == Word(isf, 16)
    ensures Word(z + ctx + isf, 1008) == Word(isf, 24)
    ensures Word(z + ctx + isf, 1016) == Word(isf, 32)
  {
    forall k | 0 <= k < 15
      ensures Word(z + ctx + isf, 856 + 8 * k) == Word(ctx, 8 * k)
    {
      WordPrefix(z + ctx, isf, 856 + 8 * k);
      WordShift(z, ctx, 8 * k);
    }
    WordPrefix(z + ctx, isf, 976);
    WordShift(z, ctx, 120);
    WordShift(z + ctx, isf, 0);
    WordShift(z + ctx, isf, 8);
    WordShift(z + ctx, isf, 16);
    WordShift(z + ctx, isf, 24);
    WordShift(z + ctx, isf, 32);
  }

  /** A word past a prefix is the word of the rest. */
  lemma {:induction false} WordShift(a: seq<u8>, b: seq<u8>, off: nat)
    requires off + 8 <= |b|
    ensures Word(a + b, |a| + off) == Word(b, off)
  {
    assert (a + b)[|a| + off..|a| + off + 8] == b[off..off + 8];
  }

  /** A word inside a prefix is the word of the prefix. */
  lemma {:induction false} WordPrefix(a: seq<u8>, b: seq<u8>, off: nat)
    requires off + 8 <= |a|
    ensures Word(a + b, off) == Word(a, off)
  {
    assert (a + b)[off..off + 8] == a[off..off + 8];
  }

  /** The words of five concatenated 8-byte strings. */
  lemma {:induction false} FiveWords(a: seq<u8>, b: seq<u8>, c: seq<u8>, d: seq<u8>, e: seq<u8>)
    requires |a| == |b| == |c| == |d| == |e| == 8
    ensures var s := a + b + c + d + e;
      && Word(s, 0) == LeValue(a) && Word(s, 8) == LeValue(b) && Word(s, 16) == LeValue(c)
      && Word(s, 24) == LeValue(d) && Word(s, 32) == LeValue(e)
  {
    var s := a + b + c + d + e;
    assert s[0..8] == a;
    assert s[8..16] == b;
    assert s[16..24] == c;
    assert s[24..32] == d;
    assert s[32..40] == e;
  }

  /** The interrupt frame reads back as the five values written. */
  lemma {:induction false} IsfWords(entry: u64, cs: u64, ss: u64)
    ensures var isf := IsfBytes(entry, cs, ss);
      && Word(isf, 0) == entry && Word(isf, 8) == cs && Word(isf, 16) == IF_FLAG
      && Word(isf, 24) == STACK_TOP && Word(isf, 32) == ss
  {
    Pow256Eight();
    FiveWords(LeBytes(entry, 8), LeBytes(cs, 8), LeBytes(IF_FLAG, 8), LeBytes(STACK_TOP, 8), LeBytes(ss, 8));
    LeValueOfBytes(entry, 8);
    LeValueOfBytes(cs, 8);
    LeValueOfBytes(IF_FLAG, 8);
    LeValueOfBytes(STACK_TOP, 8);
    LeValueOfBytes(ss, 8);
  }

  /** The context reads back as fifteen zero registers and `trapret`. */
  lemma {:induction false} ContextWords(trapret: u64)
    ensures var ctx := ContextBytes(trapret);
      (forall k :: 0 <= k < 15 ==> Word(ctx, 8 * k) == 0) && Word(ctx, 120) == trapret
  {
    var regs: seq<u8> := Zeros(15 * 8);
    var rip := LeBytes(trapret, 8);
    var ctx := ContextBytes(trapret);
    assert ctx == regs + rip;
    ZeroValue(8);
    forall k | 0 <= k < 15
      ensures Word(ctx, 8 * k) == 0
    {
      WordPrefix(regs, rip, 8 * k);
      assert regs[8 * k..8 * k + 8] == Zeros(8);
    }
    WordShift(regs, rip, 0);
    assert rip[0..8] == rip;
    Pow256Eight();
    LeValueOfBytes(trapret, 8);
  }

  /** Zero bytes have value zero. */
  lemma {:induction false} ZeroValue(n: nat)
    ensures LeValue(Zeros(n)) == 0
  {
    if n > 0 {
      ZeroValue(n - 1);
      var z := Zeros(n);
      assert z[0] == 0 && z[1..] == Zeros(n - 1);
    }
  }

  /** What `create_process` returns: the kernel stack, the offset of the
      saved context in it, and the mapped user pages. */
  datatype Process = Process(kernelStack: seq<u8>, context: nat, pages: map<nat, seq<u8>>)

  /** `e_entry`, the 8-byte field at offset 24 of the ELF header. */
  function Entry(data: seq<u8>): u64
    requires |data| >= EHDR_SIZE
  {
    Pow256Eight();
    Field(data, 24, 8)
  }

  /** `create_process_from_elf`: the first 64 bytes must exist; the magic
      and the 64-bit class are checked; the program headers are read from
      offset 64 whatever `e_phoff` says; `e_entry` goes through
      `VirtAddr::new` (which panics or sign-extends it); then
      the segments are loaded, the kernel stack built and the user stack
      mapped. `cs` and `ss` are the user selectors of the GDT and
      `trapret` the address of the `iretq` stub. */
  function ProcessFromElf(data: seq<u8>, cs: u64, ss: u64, trapret: u64): Run<Result<Process, string>>
  {
    if |data| < EHDR_SIZE then Panics(OUT_OF_RANGE)
    else if data[..4] != ELF_MAGIC then Returns(Err(MAGIC_MISMATCH))
    else if data[4] != ELFCLASS64 then Returns(Err(NOT_64_BIT))
    else
      var phnum := Field(data, 56, 2);
      if |data| < EHDR_SIZE + phnum * PHDR_SIZE then Panics(OUT_OF_RANGE)
      else
        match BootFrames.VirtAddrNew(Entry(data))
        case Panics(m) => Panics(m)
        case Returns(entry) =>
          match LoadAll(map[], data, ProgramHeaders(data, phnum))
          case Panics(m) => Panics(m)
          case Returns(loaded) =>
            match MapStack(loaded, 0)
            case Panics(m) => Panics(m)
            case Returns(pages) =>
              Returns(Ok(Process(KernelStack(entry, cs, ss, trapret), KERNEL_STACK_LEN - ISF_LEN - CONTEXT_LEN, pages)))
  }

  /** The loader refuses a file (with an `Err`) exactly when its 64-byte
      header is present and has a wrong magic or a class other than
      64-bit; a file shorter than the header panics. */
  lemma {:induction false} ElfRejected(data: seq<u8>, cs: u64, ss: u64, trapret: u64)
    ensures |data| < EHDR_SIZE ==> ProcessFromElf(data, cs, ss, trapret).Panics?
    ensures (ProcessFromElf(data, cs, ss, trapret).Returns? && ProcessFromElf(data, cs, ss, trapret).value.Err?) <==>
      (|data| >= EHDR_SIZE && (data[..4] != ELF_MAGIC || data[4] != ELFCLASS64))
  {
  }

  /** A process the loader creates has: the magic and 64-bit class in its
      file; the program-header table inside the file; every `PT_LOAD`
      segment `Loaded` (its `p_vaddr` below 2^48 and its file bytes
      readable where `VirtAddr::new` puts them); the 16 KiB below
      `STACK_TOP` mapped and zero; an `e_entry` that `VirtAddr::new`
      accepts; and the kernel stack laid out by `KernelStack` for the
      address `VirtAddr::new` makes of `e_entry`, with the context at 856. */
  lemma {:induction false} ElfLoaded(data: seq<u8>, cs: u64, ss: u64, trapret: u64)
    requires ProcessFromElf(data, cs, ss, trapret).Returns? && ProcessFromElf(data, cs, ss, trapret).value.Ok?
    ensures |data| >= EHDR_SIZE && data[..4] == ELF_MAGIC && data[4] == ELFCLASS64
    ensures EHDR_SIZE + Field(data, 56, 2) * PHDR_SIZE <= |data|
    ensures var p := ProcessFromElf(data, cs, ss, trapret).value.value;
      var phs := ProgramHeaders(data, Field(data, 56, 2));
      && (forall i :: 0 <= i < |phs| && phs[i].kind == PT_LOAD ==> Loaded(p.pages, data, phs[i]))
      && (forall a :: STACK_TOP - STACK_FRAMES * PAGE <= a < STACK_TOP ==> Read(p.pages, a) == Some(0))
      && BootFrames.VirtAddrNew(Entry(data)).Returns?
      && p.kernelStack == KernelStack(BootFrames.VirtAddrNew(Entry(data)).value, cs, ss, trapret)
      && p.context == 856
  {
    var phnum := Field(data, 56, 2);
    var phs := ProgramHeaders(data, phnum);
    var loaded := LoadAll(map[], data, phs).value;
    var p := ProcessFromElf(data, cs, ss, trapret).value.value;
    LoadAllMeaning(map[], data, phs);
    MapStackMeaning(loaded, 0);
    forall i | 0 <= i < |phs| && phs[i].kind == PT_LOAD
      ensures Loaded(p.pages, data, phs[i])
    {
      LoadedExtends(loaded, p.pages, data, phs[i]);
    }
  }

  /** The user half of an address space: `Space` with its page table
      reduced to the contents of each mapped page. */
  class AddressSpace {
    var pages: map<nat, seq<u8>>

    /** `Space::new()`: no user page mapped. */
    constructor ()
      ensures pages == map[]
    {
      pages := map[];
    }

    /** `map_to(page, frame, ..).unwrap()` for a frame holding `frame`. */
    method Map(page: nat, frame: seq<u8>) returns (r: Run<()>)
      modifies this
      ensures page in old(pages) ==> r == Panics(ALREADY_MAPPED) && pages == old(pages)
      ensures page !in old(pages) ==> r == Returns(()) && pages == old(pages)[page := frame]
    {
      if page in pages {
        r := Panics(ALREADY_MAPPED);
      } else {
        pages := pages[page := frame];
        r := Returns(());
      }
    }

    /** The page loop of `create_process` for one segment. */
    method LoadSegment(seg: LoadSegment) returns (r: Run<()>)
      modifies this
      ensures Outcome(r, pages) == SegmentPages(old(pages), seg)
    {
      var sum := seg.va + |seg.code|;
      if sum > U64_MAX {
        return Panics(ADD_OVERFLOW);
      }
      var end := BootFrames.VirtAddrNew(sum);
      if end.Panics? {
        return Panics(end.reason);
      }
      if AlignUp(end.value, PAGE) > U64_MAX {
        return Panics(ADD_OVERFLOW);
      }
      // A segment that runs from the lower half past 2^47 has its pages
      // below 2^47 mapped before the loop steps over the hole and panics.
      // Elsewhere an end sign-extended from 2^47 exactly stops the loop
      // at the same page as 2^47 would.
      var crossing := seg.va < LOWER_HALF_END < sum;
      var stop := if crossing then LOWER_HALF_END else AlignUp(sum, PAGE);
      ghost var code := LoadedPart(seg);
      SegmentPagesLoop(pages, seg);
      var page := AlignDown(seg.va);
      r := Returns(());
      while page < stop
        invariant r == Returns(())
        invariant page % PAGE == 0 && AlignDown(seg.va) <= page
        invariant LoadFrom(pages, code, seg.va, page) == LoadFrom(old(pages), code, seg.va, AlignDown(seg.va))
        decreases stop - page
      {
        var frame := new u8[PAGE];
        LoopPage(seg, page);
        FillChunk(frame, seg.code, seg.va, page);
        LoadFromStep(pages, code, seg.va, page);
        r := Map(page, frame[..]);
        if r.Panics? {
          return;
        }
        page := page + PAGE;
      }
      if crossing {
        r := Panics(SUB_OVERFLOW);
      }
    }

    /** The segment loop of `create_process`, pulling each segment through
      the `filter_map` of `create_process_from_elf`. */
    method LoadSegments(data: seq<u8>, phs: seq<ProgramHeader>) returns (r: Run<()>)
      modifies this
      ensures Outcome(r, pages) == LoadAll(old(pages), data, phs)
    {
      var i := 0;
      r := Returns(());
      while i < |phs|
        invariant 0 <= i <= |phs|
        invariant r == Returns(())
        invariant LoadAll(pages, data, phs[i..]) == LoadAll(old(pages), data, phs)
        decreases |phs| - i
      {
        assert phs[i..][1..] == phs[i + 1..];
        match SegmentOf(data, phs[i]) {
          case Panics(m) =>
            r := Panics(m);
            return;
          case Returns(None) =>
          case Returns(Some(seg)) =>
            var loaded := LoadSegment(seg);
            if loaded.Panics? {
              return loaded;
            }
        }
        i := i + 1;
      }
    }

    /** The user stack loop of `create_process`: four zero-filled frames
      mapped downwards from `STACK_TOP`. */
    method MapUserStack() returns (r: Run<()>)
      modifies this
      ensures Outcome(r, pages) == MapStack(old(pages), 0)
    {
      r := Returns(());
      for i := 0 to STACK_FRAMES
        invariant r == Returns(())
        invariant MapStack(pages, i) == MapStack(old(pages), 0)
      {
        var frame := new u8[PAGE](_ => 0);
        assert frame[..] == Zeros(PAGE);
        r := Map(StackPage(i), frame[..]);
        if r.Panics? {
          return;
        }
      }
    }
  }

  /** `target_chunk[..target_offset].fill(0)`, the `copy_from_slice` of
      the segment's bytes and the final `fill(0)` on a 4096-byte frame. */
  method FillChunk(target: array<u8>, code: seq<u8>, start: nat, page: nat)
    requires target.Length == PAGE && Visited(start, |code|, page)
    modifies target
    ensures target[..] == Chunk(code, start, page)
  {
    VisitedOffsets(start, |code|, page);
    var codeOffset := SatSub(page, start);
    var targetOffset := SatSub(start, page);
    var targetLen := Min(|code| - codeOffset, PAGE - targetOffset);
    forall i | 0 <= i < targetOffset {
      target[i] := 0;
    }
    forall i | targetOffset <= i < targetOffset + targetLen {
      target[i] := code[codeOffset + i - targetOffset];
    }
    forall i | targetOffset + targetLen <= i < PAGE {
      target[i] := 0;
    }
    var c := Chunk(code, start, page);
    assert forall i :: 0 <= i < PAGE ==> target[i] == c[i];
  }

  /** The kernel stack of `create_process`: `vec![0; 1024]`, the interrupt
      frame copied to the top, the context copied below it. */
  method BuildKernelStack(entry: nat, cs: nat, ss: nat, trapret: nat) returns (stack: array<u8>, sp: nat)
    ensures fresh(stack)
    ensures stack[..] == KernelStack(entry, cs, ss, trapret)
    ensures sp == KERNEL_STACK_LEN - ISF_LEN - CONTEXT_LEN
  {
    stack := new u8[KERNEL_STACK_LEN](_ => 0);
    sp := stack.Length;
    var isf := IsfBytes(entry, cs, ss);
    sp := sp - |isf|;
    forall i | sp <= i < sp + |isf| {
      stack[i] := isf[i - sp];
    }
    var ctx := ContextBytes(trapret);
    sp := sp - |ctx|;
    forall i | sp <= i < sp + |ctx| {
      stack[i] := ctx[i - sp];
    }
    var s := KernelStack(entry, cs, ss, trapret);
    assert forall i :: 0 <= i < KERNEL_STACK_LEN ==> stack[i] == s[i];
  }

  /** `create_process_from_elf` followed by `create_process`. */
  method CreateProcessFromElf(data: seq<u8>, cs: u64, ss: u64, trapret: u64) returns (r: Run<Result<Process, string>>)
    ensures r == ProcessFromElf(data, cs, ss, trapret)
  {
    if |data| < EHDR_SIZE {
      return Panics(OUT_OF_RANGE);
    }
    if data[..4] != ELF_MAGIC {
      return Returns(Err(MAGIC_MISMATCH));
    }
    if data[4] != ELFCLASS64 {
      return Returns(Err(NOT_64_BIT));
    }
    var phnum := Field(data, 56, 2);
    if |data| < EHDR_SIZE + phnum * PHDR_SIZE {
      return Panics(OUT_OF_RANGE);
    }
    var entry := BootFrames.VirtAddrNew(Entry(data));
    if entry.Panics? {
      return Panics(entry.reason);
    }
    var space := new AddressSpace();
    var loaded := space.LoadSegments(data, ProgramHeaders(data, phnum));
    if loaded.Panics? {
      return Panics(loaded.reason);
    }
    var stack, sp := BuildKernelStack(entry.value, cs, ss, trapret);
    var mapped := space.MapUserStack();
    if mapped.Panics? {
      return Panics(mapped.reason);
    }
    r := Returns(Ok(Process(stack[..], sp, space.pages)));
  }
}
