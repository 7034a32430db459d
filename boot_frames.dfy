/** The boot-time frame allocators: `BootInfoFrameAllocator` in
    `kernel/src/arch/x86_64/memory/frame_allocator.rs`, in
    `kernel/src/memory.rs` and in the older `src/memory.rs`, together with
    the address arithmetic of `kernel/src/memory.rs` (`phys_to_virt`, the
    recursive page-table address of `get_page_table`). The three allocators
    differ only in how a memory-map entry gives its address range and
    whether it is usable; each map is converted to the common `Region`. */
module BootFrames {
  import opened Base

  const FRAME_SIZE: nat := 4096

  /** `MemoryKind` of `kernel/src/arch/x86_64/memory/mmap.rs`. */
  datatype MemoryKind = Available | Reserved | Other

  /** `MemoryRegion` of `mmap.rs`: a start address and a length in bytes. */
  datatype MemoryRegion = MemoryRegion(start: nat, len: nat, kind: MemoryKind)

  /** A bootloader memory-map entry reduced to what the allocators read:
      the address range `start..end` and whether its kind is `Usable`. */
  datatype Region = Region(start: nat, end: nat, usable: bool)

  /** The map of `frame_allocator.rs`: `start..start + len`, usable iff
      `Available`. */
  function FromMmap(regions: seq<MemoryRegion>): (r: seq<Region>)
    ensures |r| == |regions|
    ensures forall i :: 0 <= i < |regions| ==>
      r[i] == Region(regions[i].start, regions[i].start + regions[i].len, regions[i].kind == Available)
  {
    if regions == [] then []
    else [Region(regions[0].start, regions[0].start + regions[0].len, regions[0].kind == Available)] + FromMmap(regions[1..])
  }

  /** `PhysFrame::containing_address`: the start of the 4 KiB frame that
      holds `a`. */
  function AlignDown(a: nat): (r: nat)
    ensures r % FRAME_SIZE == 0 && r <= a < r + FRAME_SIZE
  {
    a - a % FRAME_SIZE
  }

  /** `(s..e).step_by(4096)` mapped to the containing frames. */
  function Steps(s: nat, e: nat): seq<nat>
    decreases e - s
  {
    if s >= e then [] else [AlignDown(s)] + Steps(s + FRAME_SIZE, e)
  }

  /** `usable_frames`: the frames of every usable region, in map order. */
  function UsableFrames(regions: seq<Region>): seq<nat>
  {
    if regions == [] then []
    else (if regions[0].usable then Steps(regions[0].start, regions[0].end) else []) + UsableFrames(regions[1..])
  }

  /** Frames in a range of `e - s` bytes, a partial last step counted. */
  function StepCount(s: nat, e: nat): nat
  {
    if s >= e then 0 else (e - s + FRAME_SIZE - 1) / FRAME_SIZE
  }

  /** Reference count of the usable frames: the steps of each usable
      region, added up. */
  function UsablePages(regions: seq<Region>): nat
  {
    if regions == [] then 0
    else (if regions[0].usable then StepCount(regions[0].start, regions[0].end) else 0) + UsablePages(regions[1..])
  }

  /** `step_by(4096)` takes one step per started 4 KiB of the range. */
  lemma {:induction false} StepsCount(s: nat, e: nat)
    ensures |Steps(s, e)| == StepCount(s, e)
    decreases e - s
  {
    if s < e {
      StepsCount(s + FRAME_SIZE, e);
      if s + FRAME_SIZE < e {
        assert (e - s + FRAME_SIZE - 1) / FRAME_SIZE == (e - (s + FRAME_SIZE) + FRAME_SIZE - 1) / FRAME_SIZE + 1;
      }
    }
  }

  /** Every frame of a range is aligned and starts before the range ends,
      at or after the frame holding its first byte. */
  lemma {:induction false} StepsInRange(s: nat, e: nat)
    ensures forall f :: f in Steps(s, e) ==> f % FRAME_SIZE == 0 && AlignDown(s) <= f < e
    decreases e - s
  {
    if s < e {
      StepsInRange(s + FRAME_SIZE, e);
      assert AlignDown(s) <= AlignDown(s + FRAME_SIZE);
    }
  }

  /** There are as many usable frames as the usable regions have steps. */
  lemma {:induction false} UsableFramesCount(regions: seq<Region>)
    ensures |UsableFrames(regions)| == UsablePages(regions)
  {
    if regions != [] {
      StepsCount(regions[0].start, regions[0].end);
      UsableFramesCount(regions[1..]);
    }
  }

  /** Every usable frame is 4 KiB aligned and lies in a usable region
      (from the frame holding its first byte up to its end). */
  lemma {:induction false} UsableFramesSound(regions: seq<Region>)
    ensures forall f :: f in UsableFrames(regions) ==>
      f % FRAME_SIZE == 0 && exists r :: r in regions && r.usable && AlignDown(r.start) <= f < r.end
  {
    if regions != [] {
      UsableFramesSound(regions[1..]);
      StepsInRange(regions[0].start, regions[0].end);
      forall f | f in UsableFrames(regions)
        ensures f % FRAME_SIZE == 0 && exists r :: r in regions && r.usable && AlignDown(r.start) <= f < r.end
      {
        if regions[0].usable && f in Steps(regions[0].start, regions[0].end) {
          assert regions[0] in regions;
        } else {
          assert f in UsableFrames(regions[1..]);
          var r :| r in regions[1..] && r.usable && AlignDown(r.start) <= f < r.end;
          assert r in regions;
        }
      }
    }
  }

  /** The frames of a memory map are those of its parts, one after the other. */
  lemma {:induction false} UsableFramesAppend(a: seq<Region>, b: seq<Region>)
    ensures UsableFrames(a + b) == UsableFrames(a) + UsableFrames(b)
  {
    if a != [] {
      var head := if a[0].usable then Steps(a[0].start, a[0].end) else [];
      assert (a + b)[0] == a[0] && (a + b)[1..] == a[1..] + b;
      assert UsableFrames(a + b) == head + UsableFrames(a[1..] + b);
      UsableFramesAppend(a[1..], b);
      assert UsableFrames(a) == head + UsableFrames(a[1..]);
    } else {
      assert a + b == b;
    }
  }

  /** A region that is not usable contributes no frame, wherever it sits. */
  lemma {:induction false} UnusableIgnored(a: seq<Region>, r: Region, b: seq<Region>)
    requires !r.usable
    ensures UsableFrames(a + [r] + b) == UsableFrames(a + b)
  {
    UsableFramesAppend(a + [r], b);
    UsableFramesAppend(a, [r]);
    UsableFramesAppend(a, b);
    assert UsableFrames([r]) == [];
  }

  /** The allocator: the memory map and the number of frames handed out. */
  class BootInfoFrameAllocator {
    var memoryMap: seq<Region>
    var next: nat

    /** `init`: nothing handed out yet, the map kept as given. */
    constructor Init(memoryMap: seq<Region>)
      ensures this.memoryMap == memoryMap && next == 0
    {
      this.memoryMap := memoryMap;
      next := 0;
    }

    /** `free_pages`: the count of all usable frames, independent of how
        many were handed out. */
    function FreePages(): (r: nat)
      reads this
      ensures r == UsablePages(memoryMap)
    {
      UsableFramesCount(memoryMap);
      |UsableFrames(memoryMap)|
    }

    /** `allocate_frame`: the `next`-th usable frame, or `None` past the
        end; `next` is incremented in either case. */
    method AllocateFrame() returns (f: Option<nat>)
      modifies this`next
      ensures next == old(next) + 1
      ensures f == if old(next) < |UsableFrames(memoryMap)| then Some(UsableFrames(memoryMap)[old(next)]) else None
      ensures f.Some? ==> f.value % FRAME_SIZE == 0
      ensures FreePages() == old(FreePages())
    {
      var frames := UsableFrames(memoryMap);
      if next < |frames| {
        f := Some(frames[next]);
        UsableFramesSound(memoryMap);
        assert frames[next] in frames;
      } else {
        f := None;
      }
      next := next + 1;
    }
  }

  /** `PHYS_MEM_OFFSET` of `kernel/src/memory.rs`. */
  const PHYS_MEM_OFFSET: nat := 0x0000_4000_0000_0000

  /** A canonical x86-64 virtual address: bits 47..63 all equal. */
  predicate Canonical(a: nat)
  {
    a < 0x8000_0000_0000 || a >= 0xFFFF_8000_0000_0000
  }

  /** The panic of `VirtAddr::new` on an address with data in bits 48..63. */
  const VIRT_ADDR_NEW: string := "address passed to VirtAddr::new must not contain any data in bits 48 to 64"

  /** `VirtAddr::new` of the x86_64 crate (0.14): an address whose bits
      47..63 all agree is kept; one whose bits 48..63 are zero but whose
      bit 47 is set is sign-extended (`new_truncate`); any other address
      panics. */
  function VirtAddrNew(a: u64): (r: Run<u64>)
    ensures r.Returns? <==> a < 0x1_0000_0000_0000 || 0xFFFF_8000_0000_0000 <= a
    ensures r.Returns? ==> Canonical(r.value) && r.value % 0x1_0000_0000_0000 == a % 0x1_0000_0000_0000
    ensures Canonical(a) ==> r == Returns(a)
    ensures r.Panics? ==> r.reason == VIRT_ADDR_NEW
  {
    if a < 0x8000_0000_0000 || 0xFFFF_8000_0000_0000 <= a then Returns(a)
    else if a < 0x1_0000_0000_0000 then Returns(a + 0xFFFF_0000_0000_0000)
    else Panics(VIRT_ADDR_NEW)
  }

  /** `phys_to_virt`: adds the fixed offset (the `u64` addition panics on
      overflow) and passes the sum to `VirtAddr::new`. */
  function PhysToVirt(phys: u64): (r: Run<u64>)
    ensures r.Returns? <==>
      (phys + PHYS_MEM_OFFSET < 0x1_0000_0000_0000 || 0xFFFF_8000_0000_0000 <= phys + PHYS_MEM_OFFSET <= U64_MAX)
    ensures r.Returns? ==> Canonical(r.value) && r.value % 0x1_0000_0000_0000 == (phys + PHYS_MEM_OFFSET) % 0x1_0000_0000_0000
  {
    var sum := phys + PHYS_MEM_OFFSET;
    if sum > U64_MAX then Panics("attempt to add with overflow")
    else VirtAddrNew(sum)
  }

  /** Physical addresses below 2^46 map into the lower half at `phys +
      2^46`; the next 2^47 bytes of physical addresses map sign-extended
      into the upper half; above those, `phys_to_virt` panics until the sum
      reaches the upper half itself. */
  lemma {:induction false} PhysToVirtHalves(phys: u64)
    ensures phys < 0x4000_0000_0000 ==> PhysToVirt(phys) == Returns(phys + 0x4000_0000_0000)
    ensures 0x4000_0000_0000 <= phys < 0xC000_0000_0000 ==> PhysToVirt(phys) == Returns(phys + 0xFFFF_4000_0000_0000)
    ensures 0xC000_0000_0000 <= phys < 0xFFFF_4000_0000_0000 ==> PhysToVirt(phys) == Panics(VIRT_ADDR_NEW)
  {
  }

  /** The first physical address past the lower half maps to the first
      address of the upper half. */
  lemma {:induction false} PhysToVirtSignExtends()
    ensures PhysToVirt(0x4000_0000_0000) == Returns(0xFFFF_8000_0000_0000)
  {
  }

  /** Level `level` (1..4) page-table index of a virtual address. */
  function TableIndex(addr: nat, level: nat): nat
    requires 1 <= level <= 4
  {
    (addr / Shift(level)) % 512
  }

  /** 2^(12 + 9 (level - 1)). */
  function Shift(level: nat): nat
    requires 1 <= level <= 4
  {
    match level
    case 1 => 0x1000
    case 2 => 0x20_0000
    case 3 => 0x4000_0000
    case 4 => 0x80_0000_0000
  }

  /** The page `get_page_table` uses: `Page::from_page_table_indices` with
      all four indices equal to `recursive_index` (`PageTableIndex::new`
      panics from 512 on), sign-extended from bit 47. */
  function RecursiveTableAddr(recursiveIndex: u16): (r: Run<u64>)
  {
    if recursiveIndex >= 512 then Panics("assertion failed: index < 512")
    else
      var low := recursiveIndex * 0x80_0000_0000 + recursiveIndex * 0x4000_0000
        + recursiveIndex * 0x20_0000 + recursiveIndex * 0x1000;
      Returns(if low >= 0x8000_0000_0000 then low + 0xFFFF_0000_0000_0000 else low)
  }

  /** The address is canonical, page aligned, and each of its four
      page-table indices is the recursive index. */
  lemma {:induction false} RecursiveTableIndices(i: u16)
    requires i < 512
    ensures var r := RecursiveTableAddr(i);
      && r.Returns? && Canonical(r.value) && r.value % 0x1000 == 0
      && TableIndex(r.value, 4) == i && TableIndex(r.value, 3) == i
      && TableIndex(r.value, 2) == i && TableIndex(r.value, 1) == i
  {
    var low := i * 0x80_0000_0000 + i * 0x4000_0000 + i * 0x20_0000 + i * 0x1000;
    var h := if low >= 0x8000_0000_0000 then 0xFFFF else 0;
    var a := h * 0x1_0000_0000_0000 + low;
    assert RecursiveTableAddr(i) == Returns(a);
    IndexAt(a, h * 0x800_0000, i * 0x4_0000 + i * 0x200 + i, i, 0x1000, 0);
    IndexAt(a, h * 0x4_0000, i * 0x200 + i, i, 0x20_0000, i * 0x1000);
    IndexAt(a, h * 0x200, i, i, 0x4000_0000, i * 0x20_0000 + i * 0x1000);
    IndexAt(a, h, 0, i, 0x80_0000_0000, i * 0x4000_0000 + i * 0x20_0000 + i * 0x1000);
    MulDiv(0x1000, h * 0x10_0000_0000 + i * 0x800_0000 + i * 0x4_0000 + i * 0x200 + i);
  }

  /** `a = s * (512 * (h + m) + i) + low` with `low < s` has index `i` at
      the level whose shift is `s`. */
  lemma {:induction false} IndexAt(a: nat, h: nat, m: nat, i: nat, s: nat, low: nat)
    requires s > 0 && i < 512 && low < s
    requires a == s * (512 * (h + m) + i) + low
    ensures (a / s) % 512 == i
  {
    DivModUnique(a, s, 512 * (h + m) + i, low);
    DivModUnique(512 * (h + m) + i, 512, h + m, i);
  }

  /** Index 511 gives the top page of the address space. */
  lemma {:induction false} RecursiveTable511()
    ensures RecursiveTableAddr(511) == Returns(0xFFFF_FFFF_FFFF_F000)
  {
  }
}
