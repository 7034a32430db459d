/** The user-process queue of `kernel/src/process/executor.rs`: a
    `VecDeque` of processes whose front is the running one, and the page
    mappings that make the front process's code and stack frames visible.
    The page table is reduced to a map from page address to frame address:
    `map_to(..).unwrap()` panics on a page that is mapped already and
    `unmap(..).unwrap()` on one that is not. */
module ProcessExecutor {
  import opened Base
  import Heap
  import BootFrames

  const PAGE: nat := Heap.PAGE
  /** `STACK_TOP` of `src/process/mod.rs`. */
  const STACK_TOP: nat := 0xFFFF_FFFF

  const NO_PROCESS: string := "called `Option::unwrap()` on a `None` value"
  const QUEUE_EMPTIED: string := "Process queue emptied. TODO: Graceful shutdown."
  const MAP_FAILED: string := "map_to: page already mapped"
  const UNMAP_FAILED: string := "unmap: page not mapped"
  const SUB_OVERFLOW: string := "virtual address subtraction overflowed"

  /** The saved user registers of a suspended process. */
  datatype Registers = Registers(words: seq<u64>)

  /** The fields of a `Process` the queue reads and writes. */
  datatype Process = Process(codeLen: nat, frames: seq<nat>, stackFrames: seq<nat>, registers: Registers)

  /** Page address to frame address. */
  type PageTable = map<nat, nat>

  /** `Page::containing_address(process_start + p * 4096)`. */
  function CodePage(start: nat, p: nat): nat
  {
    BootFrames.AlignDown(start + p * PAGE)
  }

  /** The pages of the first `n` code frames. */
  function CodePages(start: nat, n: nat): (r: seq<nat>)
    ensures |r| == n && forall p :: 0 <= p < n ==> r[p] == CodePage(start, p)
  {
    seq(n, p requires 0 <= p < n => CodePage(start, p))
  }

  /** `STACK_TOP - p * 4096` does not underflow. */
  predicate StackFits(p: nat)
  {
    p * PAGE <= STACK_TOP
  }

  /** `Page::containing_address(STACK_TOP - p * 4096)`. */
  function StackPage(p: nat): nat
    requires StackFits(p)
  {
    BootFrames.AlignDown(STACK_TOP - p * PAGE)
  }

  /** The pages of `n` stack frames, when none of them underflows. */
  function StackPages(n: nat): (r: seq<nat>)
    requires n == 0 || StackFits(n - 1)
    ensures |r| == n && forall p :: 0 <= p < n ==> StackFits(p) && r[p] == StackPage(p)
  {
    seq(n, p requires 0 <= p < n => StackPage(p))
  }

  /** The pages `pages[i..]` are pairwise different. */
  predicate DistinctFrom(pages: seq<nat>, i: nat)
  {
    forall a, b :: i <= a < b < |pages| ==> pages[a] != pages[b]
  }

  /** Mapping `pages[i..]` to `frames[i..]` one by one. */
  function MapPages(t: PageTable, pages: seq<nat>, frames: seq<nat>, i: nat): Run<PageTable>
    requires |pages| == |frames| && i <= |pages|
    decreases |pages| - i
  {
    if i == |pages| then Returns(t)
    else if pages[i] in t then Panics(MAP_FAILED)
    else MapPages(t[pages[i] := frames[i]], pages, frames, i + 1)
  }

  /** Unmapping `pages[i..]` one by one. */
  function UnmapPages(t: PageTable, pages: seq<nat>, i: nat): Run<PageTable>
    requires i <= |pages|
    decreases |pages| - i
  {
    if i == |pages| then Returns(t)
    else if pages[i] !in t then Panics(UNMAP_FAILED)
    else UnmapPages(t - {pages[i]}, pages, i + 1)
  }

  /** The stack loop of `map_current_process` from frame `i` on. */
  function MapStack(t: PageTable, frames: seq<nat>, i: nat): Run<PageTable>
    requires i <= |frames|
    decreases |frames| - i
  {
    if i == |frames| then Returns(t)
    else if !StackFits(i) then Panics(SUB_OVERFLOW)
    else if StackPage(i) in t then Panics(MAP_FAILED)
    else MapStack(t[StackPage(i) := frames[i]], frames, i + 1)
  }

  /** Unmapping `n` stack pages from page `i` on. */
  function UnmapStack(t: PageTable, n: nat, i: nat): Run<PageTable>
    requires i <= n
    decreases n - i
  {
    if i == n then Returns(t)
    else if !StackFits(i) then Panics(SUB_OVERFLOW)
    else if StackPage(i) !in t then Panics(UNMAP_FAILED)
    else UnmapStack(t - {StackPage(i)}, n, i + 1)
  }

  /** `map_current_process` for process `p`: its code frames from
      `process_start` upwards, then its stack frames from `STACK_TOP`
      downwards. */
  function MapProcess(t: PageTable, start: nat, p: Process): Run<PageTable>
  {
    match MapPages(t, CodePages(start, |p.frames|), p.frames, 0)
    case Panics(m) => Panics(m)
    case Returns(t1) => MapStack(t1, p.stackFrames, 0)
  }

  /** `unmap_current_process` as written: only the first `code_len` code
      pages are unmapped, the stack pages stay mapped. */
  function UnmapAsWritten(t: PageTable, start: nat, p: Process): Run<PageTable>
  {
    UnmapPages(t, CodePages(start, p.codeLen), 0)
  }

  /** `unmap_current_process` as the undo of `map_current_process`: every
      code page and every stack page it mapped. */
  function UnmapProcess(t: PageTable, start: nat, p: Process): Run<PageTable>
  {
    match UnmapPages(t, CodePages(start, |p.frames|), 0)
    case Panics(m) => Panics(m)
    case Returns(t1) => UnmapStack(t1, |p.stackFrames|, 0)
  }

  /** Mapping succeeds exactly when the pages still to map are pairwise
      different and none is mapped yet; it then adds exactly those pages,
      each to its frame, and changes nothing else. */
  lemma {:induction false} MapPagesMeaning(t: PageTable, pages: seq<nat>, frames: seq<nat>, i: nat)
    requires |pages| == |frames| && i <= |pages|
    ensures MapPages(t, pages, frames, i).Returns? <==>
      DistinctFrom(pages, i) && forall q :: i <= q < |pages| ==> pages[q] !in t
    ensures MapPages(t, pages, frames, i).Returns? ==>
      var after := MapPages(t, pages, frames, i).value;
      && Extends(t, after)
      && (forall k :: k in after <==> k in t || k in pages[i..])
      && (forall q :: i <= q < |pages| ==> pages[q] in after && after[pages[q]] == frames[q])
    decreases |pages| - i
  {
    if i < |pages| {
      if pages[i] in t {
        assert !(forall q :: i <= q < |pages| ==> pages[q] !in t);
      } else {
        var t1 := t[pages[i] := frames[i]];
        MapPagesMeaning(t1, pages, frames, i + 1);
        assert pages[i..] == [pages[i]] + pages[i + 1..];
        if !DistinctFrom(pages, i + 1) {
          assert !DistinctFrom(pages, i);
        } else if exists q :: i + 1 <= q < |pages| && pages[q] in t1 {
          var q :| i + 1 <= q < |pages| && pages[q] in t1;
          if pages[q] == pages[i] {
            assert !DistinctFrom(pages, i);
          } else {
            assert pages[q] in t;
          }
        } else {
          assert DistinctFrom(pages, i);
        }
      }
    }
  }

  /** Unmapping succeeds exactly when the pages still to unmap are
      pairwise different and all mapped; it then removes exactly those
      pages and changes nothing else. */
  lemma {:induction false} UnmapPagesMeaning(t: PageTable, pages: seq<nat>, i: nat)
    requires i <= |pages|
    ensures UnmapPages(t, pages, i).Returns? <==>
      DistinctFrom(pages, i) && forall q :: i <= q < |pages| ==> pages[q] in t
    ensures UnmapPages(t, pages, i).Returns? ==>
      var after := UnmapPages(t, pages, i).value;
      && (forall k :: k in after <==> k in t && k !in pages[i..])
      && (forall k :: k in after ==> after[k] == t[k])
    decreases |pages| - i
  {
    if i < |pages| {
      if pages[i] !in t {
        assert !(forall q :: i <= q < |pages| ==> pages[q] in t);
      } else {
        var t1 := t - {pages[i]};
        UnmapPagesMeaning(t1, pages, i + 1);
        assert pages[i..] == [pages[i]] + pages[i + 1..];
        if !DistinctFrom(pages, i + 1) {
          assert !DistinctFrom(pages, i);
        } else if exists q :: i + 1 <= q < |pages| && pages[q] !in t1 {
          var q :| i + 1 <= q < |pages| && pages[q] !in t1;
          if pages[q] == pages[i] {
            assert !DistinctFrom(pages, i);
          } else {
            assert pages[q] !in t;
          }
        } else {
          assert DistinctFrom(pages, i);
        }
      }
    }
  }

  /** While no stack page underflows, the stack loops are the page loops
      over `StackPages`. */
  lemma {:induction false} StackLoops(t: PageTable, frames: seq<nat>, i: nat)
    requires i <= |frames| && (|frames| == 0 || StackFits(|frames| - 1))
    ensures MapStack(t, frames, i) == MapPages(t, StackPages(|frames|), frames, i)
    ensures UnmapStack(t, |frames|, i) == UnmapPages(t, StackPages(|frames|), i)
    decreases |frames| - i
  {
    if i < |frames| {
      var pages := StackPages(|frames|);
      StackLoops(t[pages[i] := frames[i]], frames, i + 1);
      StackLoops(t - {pages[i]}, frames, i + 1);
    }
  }

  /** Stack frames past the point where `STACK_TOP - p * 4096` underflows
      make the stack loop panic. */
  lemma {:induction false} StackUnderflowPanics(t: PageTable, frames: seq<nat>, i: nat)
    requires i < |frames| && !StackFits(|frames| - 1)
    ensures MapStack(t, frames, i).Panics?
    decreases |frames| - i
  {
    if StackFits(i) && StackPage(i) !in t {
      StackUnderflowPanics(t[StackPage(i) := frames[i]], frames, i + 1);
    }
  }

  /** What a successful `MapProcess` did: the code pages went on top of
      `t` giving `t1`, then the stack pages, none of them mapped before. */
  lemma {:induction false} MapProcessFacts(t: PageTable, start: nat, p: Process) returns (t1: PageTable)
    requires MapProcess(t, start, p).Returns?
    ensures |p.stackFrames| == 0 || StackFits(|p.stackFrames| - 1)
    ensures MapPages(t, CodePages(start, |p.frames|), p.frames, 0) == Returns(t1)
    ensures DistinctFrom(CodePages(start, |p.frames|), 0)
    ensures DistinctFrom(StackPages(|p.stackFrames|), 0)
    ensures forall k :: k in t1 <==> k in t || k in CodePages(start, |p.frames|)
    ensures forall q :: 0 <= q < |p.frames| ==> CodePage(start, q) !in t
    ensures forall q :: 0 <= q < |p.stackFrames| ==> StackPages(|p.stackFrames|)[q] !in t1
    ensures forall k :: k in MapProcess(t, start, p).value <==> k in t1 || k in StackPages(|p.stackFrames|)
    ensures forall k :: k in t ==> MapProcess(t, start, p).value[k] == t[k]
  {
    var code := CodePages(start, |p.frames|);
    MapPagesMeaning(t, code, p.frames, 0);
    t1 := MapPages(t, code, p.frames, 0).value;
    if |p.stackFrames| > 0 && !StackFits(|p.stackFrames| - 1) {
      StackUnderflowPanics(t1, p.stackFrames, 0);
    }
    var stack := StackPages(|p.stackFrames|);
    StackLoops(t1, p.stackFrames, 0);
    MapPagesMeaning(t1, stack, p.stackFrames, 0);
    assert code[0..] == code && stack[0..] == stack;
  }

  /** `UnmapProcess` on a table holding every code and stack page, all
      different, removes exactly those pages. */
  lemma {:induction false} UnmapProcessFacts(t: PageTable, start: nat, p: Process)
    requires |p.stackFrames| == 0 || StackFits(|p.stackFrames| - 1)
    requires DistinctFrom(CodePages(start, |p.frames|), 0)
    requires DistinctFrom(StackPages(|p.stackFrames|), 0)
    requires forall k :: k in CodePages(start, |p.frames|) ==> k in t
    requires forall k :: k in StackPages(|p.stackFrames|) ==> k in t && k !in CodePages(start, |p.frames|)
    ensures UnmapProcess(t, start, p).Returns?
    ensures forall k :: k in UnmapProcess(t, start, p).value <==>
      k in t && k !in CodePages(start, |p.frames|) && k !in StackPages(|p.stackFrames|)
    ensures forall k :: k in UnmapProcess(t, start, p).value ==> UnmapProcess(t, start, p).value[k] == t[k]
  {
    var code := CodePages(start, |p.frames|);
    var stack := StackPages(|p.stackFrames|);
    assert code[0..] == code && stack[0..] == stack;
    UnmapPagesMeaning(t, code, 0);
    var t1 := UnmapPages(t, code, 0).value;
    StackLoops(t1, p.stackFrames, 0);
    UnmapPagesMeaning(t1, stack, 0);
  }

  /** Unmapping what was just mapped gives back the page table before the
      mapping: `UnmapProcess` undoes `MapProcess`. */
  lemma {:induction false} UnmapUndoesMap(t: PageTable, start: nat, p: Process)
    requires MapProcess(t, start, p).Returns?
    ensures UnmapProcess(MapProcess(t, start, p).value, start, p) == Returns(t)
  {
    var t1 := MapProcessFacts(t, start, p);
    var code := CodePages(start, |p.frames|);
    var stack := StackPages(|p.stackFrames|);
    var t2 := MapProcess(t, start, p).value;
    UnmapProcessFacts(t2, start, p);
    var t4 := UnmapProcess(t2, start, p).value;
    forall k
      ensures k in t4 <==> k in t
    {
      if k in code {
        var q :| 0 <= q < |code| && code[q] == k;
        assert CodePage(start, q) !in t;
      }
      if k in stack {
        var q :| 0 <= q < |stack| && stack[q] == k;
        assert stack[q] !in t1;
      }
    }
    assert t4 == t;
  }

  /** The queue and the page table of an `Executor`. */
  datatype Queue = Queue(procs: seq<Process>, table: PageTable)

  /** `VecDeque::rotate_left(1)`: the front moves to the back. */
  function Rotate<T>(s: seq<T>): (r: seq<T>)
    requires |s| > 0
    ensures |r| == |s| && r[|s| - 1] == s[0] && forall i :: 0 <= i < |s| - 1 ==> r[i] == s[i + 1]
  {
    s[1..] + [s[0]]
  }

  /** The queue after `k` rotations. */
  function RotateN<T>(s: seq<T>, k: nat): seq<T>
    requires k <= |s|
  {
    s[k..] + s[..k]
  }

  /** Rotating keeps every process: the queue is a permutation of the old
      one. */
  lemma {:induction false} RotateKeeps<T>(s: seq<T>)
    requires |s| > 0
    ensures multiset(Rotate(s)) == multiset(s)
  {
    assert s == [s[0]] + s[1..];
  }

  /** Round robin: after `k` rotations the `k`-th process is in front, and
      `|s|` rotations give the queue back. */
  lemma {:induction false} RoundRobin<T>(s: seq<T>, k: nat)
    requires k < |s|
    ensures Rotate(RotateN(s, k)) == RotateN(s, k + 1)
    ensures RotateN(s, k)[0] == s[k]
    ensures RotateN(s, |s|) == s
  {
    var r := RotateN(s, k);
    assert r[0] == s[k];
    assert Rotate(r) == s[k + 1..] + s[..k + 1];
    assert s[|s|..] + s[..|s|] == s;
  }

  /** `Executor::new`: a queue holding only `init`, whose pages are then
      mapped. */
  function NewSpec(init: Process, start: nat, t: PageTable): Run<Queue>
  {
    match MapProcess(t, start, init)
    case Panics(m) => Panics(m)
    case Returns(t1) => Returns(Queue([init], t1))
  }

  /** `next_process`, with `UnmapProcess` undoing the old front's pages. */
  function NextSpec(q: Queue, start: nat): Run<Queue>
  {
    if |q.procs| == 0 then Panics(NO_PROCESS)
    else match UnmapProcess(q.table, start, q.procs[0])
      case Panics(m) => Panics(m)
      case Returns(t1) =>
        var procs := Rotate(q.procs);
        match MapProcess(t1, start, procs[0])
        case Panics(m) => Panics(m)
        case Returns(t2) => Returns(Queue(procs, t2))
  }

  /** `next_process` as written, with `UnmapAsWritten`. */
  function NextAsWritten(q: Queue, start: nat): Run<Queue>
  {
    if |q.procs| == 0 then Panics(NO_PROCESS)
    else match UnmapAsWritten(q.table, start, q.procs[0])
      case Panics(m) => Panics(m)
      case Returns(t1) =>
        var procs := Rotate(q.procs);
        match MapProcess(t1, start, procs[0])
        case Panics(m) => Panics(m)
        case Returns(t2) => Returns(Queue(procs, t2))
  }

  /** `exit_current_process`: unmap the front, drop it, panic if nobody is
      left, else map the new front. */
  function ExitSpec(q: Queue, start: nat): Run<Queue>
  {
    if |q.procs| == 0 then Panics(NO_PROCESS)
    else match UnmapProcess(q.table, start, q.procs[0])
      case Panics(m) => Panics(m)
      case Returns(t1) =>
        var procs := q.procs[1..];
        if procs == [] then Panics(QUEUE_EMPTIED)
        else match MapProcess(t1, start, procs[0])
          case Panics(m) => Panics(m)
          case Returns(t2) => Returns(Queue(procs, t2))
  }

  /** `suspend_current_process`: save the registers into the front, then
      `next_process`. */
  function SuspendSpec(q: Queue, start: nat, regs: Registers): Run<Queue>
  {
    if |q.procs| == 0 then Panics(NO_PROCESS)
    else NextSpec(Queue(q.procs[0 := q.procs[0].(registers := regs)], q.table), start)
  }

  /** The executor's invariant: the queue is not empty and its page table
      is `base` (the mappings that belong to nobody in the queue) with the
      front process's pages mapped on top. */
  ghost predicate Installed(q: Queue, base: PageTable, start: nat)
  {
    |q.procs| > 0 && MapProcess(base, start, q.procs[0]) == Returns(q.table)
  }

  /** `new` establishes the invariant over the table it was given. */
  lemma {:induction false} NewInstalls(init: Process, start: nat, t: PageTable)
    requires NewSpec(init, start, t).Returns?
    ensures Installed(NewSpec(init, start, t).value, t, start)
    ensures NewSpec(init, start, t).value.procs == [init]
  {
  }

  /** From an installed queue, `next_process` fails exactly when the
      next process's pages clash with `base`; otherwise the queue is
      rotated (a permutation of the old one with the old front last) and
      the invariant holds for the new front. */
  lemma {:induction false} NextKeepsInstalled(q: Queue, base: PageTable, start: nat)
    requires Installed(q, base, start)
    ensures NextSpec(q, start).Panics? <==> MapProcess(base, start, Rotate(q.procs)[0]).Panics?
    ensures NextSpec(q, start).Returns? ==>
      var q' := NextSpec(q, start).value;
      && q'.procs == Rotate(q.procs)
      && multiset(q'.procs) == multiset(q.procs)
      && Installed(q', base, start)
  {
    UnmapUndoesMap(base, start, q.procs[0]);
    RotateKeeps(q.procs);
  }

  /** From an installed queue, `exit_current_process` panics with
      `QUEUE_EMPTIED` when the exiting process was the last one; otherwise
      it fails exactly when the next process's pages clash with `base`,
      and else drops the front and keeps the invariant. */
  lemma {:induction false} ExitKeepsInstalled(q: Queue, base: PageTable, start: nat)
    requires Installed(q, base, start)
    ensures |q.procs| == 1 ==> ExitSpec(q, start) == Panics(QUEUE_EMPTIED)
    ensures |q.procs| > 1 ==> (ExitSpec(q, start).Panics? <==> MapProcess(base, start, q.procs[1]).Panics?)
    ensures ExitSpec(q, start).Returns? ==>
      var q' := ExitSpec(q, start).value;
      q'.procs == q.procs[1..] && Installed(q', base, start)
  {
    UnmapUndoesMap(base, start, q.procs[0]);
  }

  /** Suspending moves the front process to the back with the registers
      saved in it, and keeps the invariant when the front's pages do not
      depend on its registers (they never do). */
  lemma {:induction false} SuspendSavesRegisters(q: Queue, base: PageTable, start: nat, regs: Registers)
    requires Installed(q, base, start)
    ensures SuspendSpec(q, start, regs).Returns? ==>
      var q' := SuspendSpec(q, start, regs).value;
      && |q'.procs| == |q.procs|
      && q'.procs[|q.procs| - 1] == q.procs[0].(registers := regs)
      && (forall i :: 1 <= i < |q.procs| ==> q'.procs[i - 1] == q.procs[i])
      && Installed(q', base, start)
  {
    var saved := Queue(q.procs[0 := q.procs[0].(registers := regs)], q.table);
    assert MapProcess(base, start, saved.procs[0]) == MapProcess(base, start, q.procs[0]);
    NextKeepsInstalled(saved, base, start);
  }

  /** The unmapping as written leaves the stack pages mapped, so when the
      next front process has a stack, mapping it hits a page that is
      still mapped and `next_process` panics, even with a single process
      in the queue. */
  lemma {:induction false} NextAsWrittenPanics(q: Queue, base: PageTable, start: nat)
    requires Installed(q, base, start)
    requires q.procs[0].codeLen <= |q.procs[0].frames| && |q.procs[0].stackFrames| > 0
    requires |Rotate(q.procs)[0].stackFrames| > 0
    ensures NextAsWritten(q, start).Panics?
  {
    var p := q.procs[0];
    var code := CodePages(start, |p.frames|);
    MapPagesMeaning(base, code, p.frames, 0);
    var t1 := MapPages(base, code, p.frames, 0).value;
    if !StackFits(|p.stackFrames| - 1) {
      StackUnderflowPanics(t1, p.stackFrames, 0);
    }
    StackLoops(t1, p.stackFrames, 0);
    MapPagesMeaning(t1, StackPages(|p.stackFrames|), p.stackFrames, 0);
    assert StackFits(0);
    assert StackPage(0) !in t1 && StackPage(0) in q.table;
    var written := CodePages(start, p.codeLen);
    UnmapPagesMeaning(q.table, written, 0);
    if UnmapAsWritten(q.table, start, p).Returns? {
      var t2 := UnmapAsWritten(q.table, start, p).value;
      assert written[0..] == written;
      assert StackPage(0) in t2;
      var next := Rotate(q.procs)[0];
      var nextCode := CodePages(start, |next.frames|);
      MapPagesMeaning(t2, nextCode, next.frames, 0);
    }
  }

  /** A single process with one code frame and one stack frame: `new`
      maps it, and `next_process` as written panics. */
  lemma {:induction false} SingleProcessPanics()
    ensures var init := Process(1, [0x20_0000], [0x30_0000], Registers([]));
      && NewSpec(init, 0x1000_0000, map[]).Returns?
      && NextAsWritten(NewSpec(init, 0x1000_0000, map[]).value, 0x1000_0000).Panics?
  {
    var init := Process(1, [0x20_0000], [0x30_0000], Registers([]));
    var t1 := map[0x1000_0000 := 0x20_0000];
    assert CodePages(0x1000_0000, 1) == [0x1000_0000];
    assert MapPages(map[], [0x1000_0000], [0x20_0000], 0) == Returns(t1);
    assert StackFits(0) && StackPage(0) == 0xFFFF_F000;
    assert MapStack(t1, [0x30_0000], 0) == Returns(t1[0xFFFF_F000 := 0x30_0000]);
    NewInstalls(init, 0x1000_0000, map[]);
    NextAsWrittenPanics(NewSpec(init, 0x1000_0000, map[]).value, map[], 0x1000_0000);
  }

  /** `Executor` of `kernel/src/process/executor.rs`. */
  class Executor {
    var procs: seq<Process>
    var table: PageTable
    const processStart: nat

    constructor Make(init: Process, start: nat, t: PageTable)
      ensures procs == [init] && table == t && processStart == start
    {
      procs := [init];
      table := t;
      processStart := start;
    }

    /** `Executor::new`. */
    static method New(init: Process, start: nat, t: PageTable) returns (r: Run<Executor>)
      ensures r.Panics? ==> NewSpec(init, start, t) == Panics(r.reason)
      ensures r.Returns? ==>
        && fresh(r.value) && r.value.processStart == start
        && NewSpec(init, start, t) == Returns(Queue(r.value.procs, r.value.table))
    {
      var e := new Executor.Make(init, start, t);
      var mapped := e.MapCurrent();
      if mapped.Panics? {
        return Panics(mapped.reason);
      }
      return Returns(e);
    }

    /** `map_current_process`. */
    method MapCurrent() returns (r: Run<()>)
      modifies this
      ensures procs == old(procs)
      ensures |procs| == 0 ==> r == Panics(NO_PROCESS)
      ensures |procs| > 0 ==> Outcome(r, table) == MapProcess(old(table), processStart, procs[0])
    {
      if |procs| == 0 {
        return Panics(NO_PROCESS);
      }
      var front := procs[0];
      var code := CodePages(processStart, |front.frames|);
      r := Returns(());
      for p := 0 to |front.frames|
        invariant procs == old(procs)
        invariant MapPages(table, code, front.frames, p) == MapPages(old(table), code, front.frames, 0)
      {
        var page := CodePage(processStart, p);
        if page in table {
          return Panics(MAP_FAILED);
        }
        table := table[page := front.frames[p]];
      }
      ghost var afterCode := table;
      for p := 0 to |front.stackFrames|
        invariant procs == old(procs)
        invariant MapPages(old(table), code, front.frames, 0) == Returns(afterCode)
        invariant MapStack(table, front.stackFrames, p) == MapStack(afterCode, front.stackFrames, 0)
      {
        if !StackFits(p) {
          return Panics(SUB_OVERFLOW);
        }
        var page := StackPage(p);
        if page in table {
          return Panics(MAP_FAILED);
        }
        table := table[page := front.stackFrames[p]];
      }
    }

    /** `unmap_current_process`, unmapping every page `MapCurrent` mapped. */
    method UnmapCurrent() returns (r: Run<()>)
      modifies this
      ensures procs == old(procs)
      ensures |procs| == 0 ==> r == Panics(NO_PROCESS)
      ensures |procs| > 0 ==> Outcome(r, table) == UnmapProcess(old(table), processStart, procs[0])
    {
      if |procs| == 0 {
        return Panics(NO_PROCESS);
      }
      var front := procs[0];
      var code := CodePages(processStart, |front.frames|);
      r := Returns(());
      for p := 0 to |front.frames|
        invariant procs == old(procs)
        invariant UnmapPages(table, code, p) == UnmapPages(old(table), code, 0)
      {
        var page := CodePage(processStart, p);
        if page !in table {
          return Panics(UNMAP_FAILED);
        }
        table := table - {page};
      }
      ghost var afterCode := table;
      for p := 0 to |front.stackFrames|
        invariant procs == old(procs)
        invariant UnmapPages(old(table), code, 0) == Returns(afterCode)
        invariant UnmapStack(table, |front.stackFrames|, p) == UnmapStack(afterCode, |front.stackFrames|, 0)
      {
        if !StackFits(p) {
          return Panics(SUB_OVERFLOW);
        }
        var page := StackPage(p);
        if page !in table {
          return Panics(UNMAP_FAILED);
        }
        table := table - {page};
      }
    }

    /** `next_process`. */
    method NextProcess() returns (r: Run<()>)
      modifies this
      ensures Outcome(r, Queue(procs, table)) == NextSpec(Queue(old(procs), old(table)), processStart)
    {
      r := UnmapCurrent();
      if r.Panics? {
        return;
      }
      procs := Rotate(procs);
      r := MapCurrent();
    }

    /** `exit_current_process`. */
    method ExitCurrentProcess() returns (r: Run<()>)
      modifies this
      ensures Outcome(r, Queue(procs, table)) == ExitSpec(Queue(old(procs), old(table)), processStart)
    {
      r := UnmapCurrent();
      if r.Panics? {
        return;
      }
      procs := procs[1..];
      if procs == [] {
        return Panics(QUEUE_EMPTIED);
      }
      r := MapCurrent();
    }

    /** `suspend_current_process`. */
    method SuspendCurrentProcess(regs: Registers) returns (r: Run<()>)
      modifies this
      ensures Outcome(r, Queue(procs, table)) == SuspendSpec(Queue(old(procs), old(table)), processStart, regs)
    {
      if |procs| == 0 {
        return Panics(NO_PROCESS);
      }
      procs := procs[0 := procs[0].(registers := regs)];
      r := NextProcess();
    }
  }
}
