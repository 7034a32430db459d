/** The four `BuddyBitmap` operations of
    `kernel/src/arch/x86_64/memory/frame_allocator/buddy.rs` as functions
    from the storage before to the result and the storage after, with what
    they promise proved about them. */
module BuddyOps {
  import opened Base
  import opened BuddyLayout

  /** `AllocErr`. */
  datatype AllocErr =
    | IdxOutOfRange(idx: nat, layer: nat)
    | DoubleFree(idx: nat, layer: nat)
    | OutOfMemory(layer: nat)
    | LayerDoesNotExist(layer: nat)

  /** A half-open `Range<usize>`. */
  datatype Range = Range(start: nat, end: nat)

  /** What an operation returns, together with the storage it leaves. */
  datatype Outcome<T> = Outcome(result: Result<T, AllocErr>, bits: seq<bool>)

  /** `alloc_bit(layer)`: the lowest free bit of the layer is marked used;
      with none free, a block of the layer above is split: its left half
      is returned and its right half marked free. */
  function AllocBitSpec(n: nat, bits: seq<bool>, layer: nat): (o: Outcome<nat>)
    requires |bits| == Size(n)
    ensures |o.bits| == |bits|
    ensures o.result.Ok? ==> o.result.value < LayerLen(n, layer)
    decreases n - layer
  {
    if layer >= n then Outcome(Err(LayerDoesNotExist(layer)), bits)
    else match FirstZeroFrom(bits, n, layer, 0, LayerLen(n, layer))
      case Some(idx) => Outcome(Ok(idx), Set(bits, n, layer, idx, true))
      case None =>
        var above := AllocBitSpec(n, bits, layer + 1);
        match above.result
        case Err(e) =>
          Outcome(Err(if e.LayerDoesNotExist? || e.OutOfMemory? then OutOfMemory(layer) else e), above.bits)
        case Ok(a) =>
          LayerHalves(n, layer);
          Outcome(Ok(2 * a), Set(above.bits, n, layer, 2 * a + 1, false))
  }

  /** `dealloc_bit(idx, layer)`: marks the bit free and, when its buddy is
      free too, marks both used and frees the parent instead. The top
      layer always acts on its bit 0. */
  function DeallocBitSpec(n: nat, bits: seq<bool>, idx: nat, layer: nat): (o: Outcome<()>)
    requires |bits| == Size(n) && n >= 1
    ensures |o.bits| == |bits|
    decreases n - layer
  {
    if layer == n - 1 then
      if !Get(bits, n, layer, 0) then Outcome(Err(DoubleFree(idx, layer)), bits)
      else Outcome(Ok(()), Set(bits, n, layer, 0, false))
    else
      var pair := idx - idx % 2;
      if pair + 2 > LayerLen(n, layer) then Outcome(Err(IdxOutOfRange(idx, layer)), bits)
      else
        var buddy := pair + (idx + 1) % 2;
        if !Get(bits, n, layer, idx) then Outcome(Err(DoubleFree(idx, layer)), bits)
        else
          var cleared := Set(bits, n, layer, idx, false);
          if layer + 1 < n && !Get(cleared, n, layer, buddy) then
            var merged := Set(Set(cleared, n, layer, idx, true), n, layer, buddy, true);
            DeallocBitSpec(n, merged, idx / 2, layer + 1)
          else
            Outcome(Ok(()), cleared)
  }

  /** `dealloc_range(s..e, layer)`: refuses a range holding a free bit,
      frees the unpaired bits at either edge one by one and the paired
      middle as the range of parents one layer up. Slicing outside the
      layer panics. */
  function DeallocRangeSpec(n: nat, bits: seq<bool>, s: nat, e: nat, layer: nat): (r: Run<Outcome<()>>)
    requires |bits| == Size(n) && n >= 1
    ensures r.Returns? ==> |r.value.bits| == |bits|
    decreases n - layer
  {
    if layer >= n then Returns(Outcome(Err(LayerDoesNotExist(layer)), bits))
    else if !(s <= e <= LayerLen(n, layer)) then Panics("range end index out of range for slice")
    else match FirstZeroFrom(bits, n, layer, s, e)
      case Some(i) => Returns(Outcome(Err(DoubleFree(i - s, layer)), bits))
      case None =>
        var first := StartEdge(n, bits, s, layer);
        if first.result.Err? then Returns(Outcome(Err(first.result.error), first.bits))
        else
          var second := EndEdge(n, first.bits, e, layer);
          if second.result.Err? then Returns(Outcome(Err(second.result.error), second.bits))
          else if AboveStart(s) < AboveEnd(e) then DeallocRangeSpec(n, second.bits, AboveStart(s), AboveEnd(e), layer + 1)
          else Returns(Outcome(Ok(()), second.bits))
  }

  /** One step of `dealloc_range` once the range was found all used and
      both edges were freed. */
  lemma DeallocRangeStep(n: nat, bits: seq<bool>, s: nat, e: nat, layer: nat, up: nat)
    requires |bits| == Size(n) && n >= 1 && layer < n && s <= e <= LayerLen(n, layer) && up == layer + 1
    requires FirstZeroFrom(bits, n, layer, s, e).None?
    requires StartEdge(n, bits, s, layer).result.Ok?
    requires EndEdge(n, StartEdge(n, bits, s, layer).bits, e, layer).result.Ok?
    ensures var b2 := EndEdge(n, StartEdge(n, bits, s, layer).bits, e, layer).bits;
      AboveStart(s) < AboveEnd(e) ==>
        DeallocRangeSpec(n, bits, s, e, layer) == DeallocRangeSpec(n, b2, AboveStart(s), AboveEnd(e), up)
    ensures var b2 := EndEdge(n, StartEdge(n, bits, s, layer).bits, e, layer).bits;
      AboveStart(s) >= AboveEnd(e) ==> DeallocRangeSpec(n, bits, s, e, layer) == Returns(Outcome(Ok(()), b2))
  {
  }

  /** The unpaired bit at the start of a range (odd `s`) is freed on its own. */
  function StartEdge(n: nat, bits: seq<bool>, s: nat, layer: nat): (o: Outcome<()>)
    requires |bits| == Size(n) && n >= 1
    ensures |o.bits| == |bits|
  {
    if s % 2 == 1 then DeallocBitSpec(n, bits, s, layer) else Outcome(Ok(()), bits)
  }

  /** The unpaired bit at the end of a range (odd `e`) is freed on its own. */
  function EndEdge(n: nat, bits: seq<bool>, e: nat, layer: nat): (o: Outcome<()>)
    requires |bits| == Size(n) && n >= 1
    ensures |o.bits| == |bits|
  {
    if e % 2 == 1 then DeallocBitSpec(n, bits, e - 1, layer) else Outcome(Ok(()), bits)
  }

  /** First parent wholly inside a range starting at `s`. */
  function AboveStart(s: nat): nat
  {
    if s % 2 == 1 then (s + 1) / 2 else s / 2
  }

  /** End of the parents wholly inside a range ending at `e`. */
  function AboveEnd(e: nat): nat
  {
    if e % 2 == 1 then (e - 1) / 2 else e / 2
  }

  /** `alloc_range(len, layer)`: allocates ceil(len/2) blocks one layer up,
      keeps the first `len` of their halves and frees the surplus. */
  function AllocRangeSpec(n: nat, bits: seq<bool>, len: nat, layer: nat): (r: Run<Outcome<Range>>)
    requires |bits| == Size(n) && n >= 1
    ensures r.Returns? ==> |r.value.bits| == |bits|
    decreases n - layer
  {
    if layer >= n then Returns(Outcome(Err(LayerDoesNotExist(layer)), bits))
    else if len == 0 then Returns(Outcome(Ok(Range(0, 0)), bits))
    else if len == 1 then
      var o := AllocBitSpec(n, bits, layer);
      Returns(Outcome(if o.result.Ok? then Ok(Range(o.result.value, o.result.value + 1)) else Err(o.result.error), o.bits))
    else AfterAbove(n, AllocRangeSpec(n, bits, (len + len % 2) / 2, layer + 1), len, layer)
  }

  /** The rest of `alloc_range` once it asked for the parents one layer
      up: a panic or an error there is passed on; otherwise the surplus
      is trimmed. */
  function AfterAbove(n: nat, above: Run<Outcome<Range>>, len: nat, layer: nat): (r: Run<Outcome<Range>>)
    requires n >= 1 && (above.Returns? ==> |above.value.bits| == Size(n))
    ensures r.Returns? ==> |r.value.bits| == Size(n)
  {
    if above.Panics? then Panics(above.reason)
    else if above.value.result.Err? then Returns(Outcome(Err(above.value.result.error), above.value.bits))
    else TrimSurplus(n, above.value.bits, above.value.result.value, len, layer)
  }

  /** The tail of `alloc_range`: the halves of the parents `above` are
      the candidate range; the first `len` are kept and the rest freed. */
  function TrimSurplus(n: nat, bits: seq<bool>, above: Range, len: nat, layer: nat): (r: Run<Outcome<Range>>)
    requires |bits| == Size(n) && n >= 1
    ensures r.Returns? ==> |r.value.bits| == |bits|
  {
    var start, end := 2 * above.start, 2 * above.end;
    var freed := DeallocRangeSpec(n, bits, start + len, end, layer);
    if freed.Panics? then Panics(freed.reason)
    else if freed.value.result.Err? then Returns(Outcome(Err(freed.value.result.error), freed.value.bits))
    else Returns(Outcome(Ok(Range(start, start + len)), freed.value.bits))
  }

  /** One step of `alloc_range` once the parents were allocated. */
  lemma AllocRangeStep(n: nat, bits: seq<bool>, len: nat, layer: nat, up: nat, aboveLen: nat)
    requires |bits| == Size(n) && n >= 1 && layer < n && up == layer + 1 && len >= 2 && aboveLen == (len + len % 2) / 2
    ensures var above := AllocRangeSpec(n, bits, aboveLen, up);
      above.Returns? && above.value.result.Ok? ==>
        AllocRangeSpec(n, bits, len, layer) == TrimSurplus(n, above.value.bits, above.value.result.value, len, layer)
    ensures var above := AllocRangeSpec(n, bits, aboveLen, up);
      above.Returns? && above.value.result.Err? ==>
        AllocRangeSpec(n, bits, len, layer) == Returns(Outcome(Err(above.value.result.error), above.value.bits))
  {
    assert AllocRangeSpec(n, bits, len, layer) == AfterAbove(n, AllocRangeSpec(n, bits, aboveLen, up), len, layer);
  }

  /** Storages that agree on layers `lo..mid` and `lo..hi` of each other
      agree on the common part. */
  lemma AgreeTrans(a: seq<bool>, b: seq<bool>, c: seq<bool>, n: nat, lo: nat, hi: nat)
    requires |a| == Size(n) && |b| == Size(n) && |c| == Size(n)
    requires Agree(a, b, n, lo, hi) && Agree(b, c, n, lo, hi)
    ensures Agree(a, c, n, lo, hi)
  {
  }

  /** `alloc_bit` succeeds exactly when some layer at or above the
      requested one has a free bit; the returned bit is then marked used,
      and the layers below are untouched. Otherwise nothing changes and
      the error is `OutOfMemory` of the requested layer (or
      `LayerDoesNotExist` past the top). */
  lemma {:induction false} AllocBitOutcome(n: nat, bits: seq<bool>, layer: nat)
    requires |bits| == Size(n)
    ensures var o := AllocBitSpec(n, bits, layer);
      && (o.result.Ok? <==> exists l: nat, j: nat :: layer <= l && j < LayerLen(n, l) && !Get(bits, n, l, j))
      && (o.result.Ok? ==> Get(o.bits, n, layer, o.result.value))
      && (o.result.Err? ==>
        o.bits == bits && o.result.error == if layer >= n then LayerDoesNotExist(layer) else OutOfMemory(layer))
      && Agree(bits, o.bits, n, 0, layer)
    decreases n - layer
  {
    var o := AllocBitSpec(n, bits, layer);
    if layer < n {
      match FirstZeroFrom(bits, n, layer, 0, LayerLen(n, layer))
      case Some(idx) =>
        GetSet(bits, n, layer, idx, true, layer, idx);
        SetAgree(bits, n, layer, idx, true);
      case None =>
        AllocBitOutcome(n, bits, layer + 1);
        var above := AllocBitSpec(n, bits, layer + 1);
        if above.result.Ok? {
          var a := above.result.value;
          LayerHalves(n, layer);
          GetSet(above.bits, n, layer, 2 * a + 1, false, layer, 2 * a);
          SetAgree(above.bits, n, layer, 2 * a + 1, false);
          AgreeTrans(bits, above.bits, o.bits, n, 0, layer);
        } else {
          forall l: nat, j: nat | layer <= l && j < LayerLen(n, l)
            ensures Get(bits, n, l, j)
          {
            if l == layer {
            }
          }
        }
    }
  }

  /** Every bit of layers `lo` and up is used. */
  ghost predicate UsedFrom(bits: seq<bool>, n: nat, lo: nat)
    requires |bits| == Size(n)
  {
    forall l: nat, k: nat :: lo <= l && k < LayerLen(n, l) ==> Get(bits, n, l, k)
  }

  /** Clearing a used bit and setting it again gives back the storage. */
  lemma SetBack(bits: seq<bool>, n: nat, l: nat, j: nat)
    requires |bits| == Size(n) && j < LayerLen(n, l) && Get(bits, n, l, j)
    ensures Set(Set(bits, n, l, j, false), n, l, j, true) == bits
  {
    LayerInBounds(n, l);
  }

  /** What `dealloc_bit` refuses: a bit that is already free gives
      `DoubleFree` and nothing changes; past the top the index is out of
      range; and the top layer ignores the index it is given. */
  lemma DeallocBitRefusals(n: nat, bits: seq<bool>, idx: nat, layer: nat)
    requires |bits| == Size(n) && n >= 1
    ensures layer < n && idx < LayerLen(n, layer) && !Get(bits, n, layer, idx) ==>
      DeallocBitSpec(n, bits, idx, layer) == Outcome(Err(DoubleFree(idx, layer)), bits)
    ensures layer >= n ==> DeallocBitSpec(n, bits, idx, layer) == Outcome(Err(IdxOutOfRange(idx, layer)), bits)
    ensures layer == n - 1 ==>
      DeallocBitSpec(n, bits, idx, layer).bits == DeallocBitSpec(n, bits, 0, layer).bits
      && (DeallocBitSpec(n, bits, idx, layer).result.Ok? <==> Get(bits, n, layer, 0))
  {
    if layer < n - 1 {
      LayerHalves(n, layer);
    }
  }

  /** A successful `dealloc_bit` adds 2^layer pages of free capacity,
      whatever merging happened on the way up. */
  lemma {:induction false} DeallocBitAccounting(n: nat, bits: seq<bool>, idx: nat, layer: nat)
    requires |bits| == Size(n) && n >= 1
    requires DeallocBitSpec(n, bits, idx, layer).result.Ok?
    ensures FreeUnits(DeallocBitSpec(n, bits, idx, layer).bits, n) == FreeUnits(bits, n) + Pow2(layer)
    decreases n - layer
  {
    if layer == n - 1 {
      FreeUnitsSet(bits, n, layer, 0, false);
    } else {
      DeallocBitUsed(n, bits, idx, layer);
      var buddy := idx - idx % 2 + (idx + 1) % 2;
      if layer + 1 < n && !Get(Set(bits, n, layer, idx, false), n, layer, buddy) {
        var up, half := layer + 1, idx / 2;
        DeallocBitMergeStep(n, bits, idx, layer, up, half);
        DeallocBitAccounting(n, Set(bits, n, layer, buddy, true), half, up);
        DeallocBitMergeAccounting(n, bits, idx, layer, up, half);
      } else {
        FreeUnitsSet(bits, n, layer, idx, false);
      }
    }
  }

  /** Below the top, a successful `dealloc_bit` found its pair inside the
      layer and its bit used. */
  lemma DeallocBitUsed(n: nat, bits: seq<bool>, idx: nat, layer: nat)
    requires |bits| == Size(n) && n >= 1 && layer != n - 1
    requires DeallocBitSpec(n, bits, idx, layer).result.Ok?
    ensures idx - idx % 2 + 2 <= LayerLen(n, layer) && Get(bits, n, layer, idx)
  {
  }

  /** The merge case of the accounting: the buddy goes from free to used
      (one block less) and the parent is freed (two blocks more). */
  lemma DeallocBitMergeAccounting(n: nat, bits: seq<bool>, idx: nat, layer: nat, up: nat, half: nat)
    requires |bits| == Size(n) && n >= 1 && up == layer + 1 && half == idx / 2 && up < n
    requires idx - idx % 2 + 2 <= LayerLen(n, layer) && Get(bits, n, layer, idx)
    requires !Get(Set(bits, n, layer, idx, false), n, layer, idx - idx % 2 + (idx + 1) % 2)
    requires var merged := Set(bits, n, layer, idx - idx % 2 + (idx + 1) % 2, true);
      DeallocBitSpec(n, merged, half, up).result.Ok?
      && FreeUnits(DeallocBitSpec(n, merged, half, up).bits, n) == FreeUnits(merged, n) + Pow2(up)
    ensures var merged := Set(bits, n, layer, idx - idx % 2 + (idx + 1) % 2, true);
      FreeUnits(DeallocBitSpec(n, merged, half, up).bits, n) == FreeUnits(bits, n) + Pow2(layer)
  {
    var buddy := idx - idx % 2 + (idx + 1) % 2;
    var merged := Set(bits, n, layer, buddy, true);
    GetSet(bits, n, layer, idx, false, layer, buddy);
    FreeUnitsSet(bits, n, layer, buddy, true);
    Pow2Half(up, layer);
    MergeSum(FreeUnits(bits, n), FreeUnits(merged, n), FreeUnits(DeallocBitSpec(n, merged, half, up).bits, n),
      Pow2(layer), Pow2(up), Delta(Get(bits, n, layer, buddy), true));
  }

  /** Marking the buddy used and freeing the parent adds one block. */
  lemma MergeSum(f0: int, f1: int, f2: int, p: int, pu: int, d: int)
    requires d == -1 && f1 == f0 + p * d && f2 == f1 + pu && pu == 2 * p
    ensures f2 == f0 + p
  {
  }

  /** The merge step of `dealloc_bit`: with the buddy free, the pair is
      marked used and the parent one layer up is freed instead. */
  lemma DeallocBitMergeStep(n: nat, bits: seq<bool>, idx: nat, layer: nat, up: nat, half: nat)
    requires |bits| == Size(n) && n >= 1 && up == layer + 1 && half == idx / 2 && up < n
    requires idx - idx % 2 + 2 <= LayerLen(n, layer) && Get(bits, n, layer, idx)
    requires !Get(Set(bits, n, layer, idx, false), n, layer, idx - idx % 2 + (idx + 1) % 2)
    ensures DeallocBitSpec(n, bits, idx, layer)
      == DeallocBitSpec(n, Set(bits, n, layer, idx - idx % 2 + (idx + 1) % 2, true), half, up)
  {
    SetBack(bits, n, layer, idx);
  }

  /** `dealloc_range` panics exactly when the range does not fit in an
      existing layer (the slice of the layer is taken before anything
      else). */
  lemma {:induction false} DeallocRangePanics(n: nat, bits: seq<bool>, s: nat, e: nat, layer: nat)
    requires |bits| == Size(n) && n >= 1
    ensures DeallocRangeSpec(n, bits, s, e, layer).Panics? <==> layer < n && !(s <= e <= LayerLen(n, layer))
    decreases n - layer
  {
    if layer < n && s <= e <= LayerLen(n, layer) && FirstZeroFrom(bits, n, layer, s, e).None? {
      var first := StartEdge(n, bits, s, layer);
      var second := EndEdge(n, first.bits, e, layer);
      if first.result.Ok? && second.result.Ok? && AboveStart(s) < AboveEnd(e) {
        if layer + 1 < n {
          LayerHalves(n, layer);
        }
        DeallocRangePanics(n, second.bits, AboveStart(s), AboveEnd(e), layer + 1);
      }
    }
  }

  /** A range holding a free bit is refused with `DoubleFree`, reporting
      the first free bit's offset in the range, before anything changes. */
  lemma DeallocRangeRefusesFree(n: nat, bits: seq<bool>, s: nat, e: nat, layer: nat, k: nat)
    requires |bits| == Size(n) && n >= 1
    requires layer < n && s <= k < e <= LayerLen(n, layer) && !Get(bits, n, layer, k)
    ensures var r := DeallocRangeSpec(n, bits, s, e, layer);
      r.Returns? && r.value.bits == bits && r.value.result.Err?
      && r.value.result.error.DoubleFree? && r.value.result.error.idx <= k - s
  {
  }

  /** How many layer blocks `dealloc_range(s..e)` hands back: the
      width of the range, plus the two blocks around an empty range at
      an odd index. */
  function FreedWidth(s: nat, e: nat): nat
    requires s <= e
  {
    (e - s) + (if s == e && s % 2 == 1 then 2 else 0)
  }

  /** A successful `dealloc_range` adds `FreedWidth` blocks of its layer
      to the free capacity. */
  lemma {:induction false} DeallocRangeAccounting(n: nat, bits: seq<bool>, s: nat, e: nat, layer: nat)
    requires |bits| == Size(n) && n >= 1
    requires DeallocRangeSpec(n, bits, s, e, layer).Returns?
    requires DeallocRangeSpec(n, bits, s, e, layer).value.result.Ok?
    ensures s <= e
    ensures FreeUnits(DeallocRangeSpec(n, bits, s, e, layer).value.bits, n)
      == FreeUnits(bits, n) + FreedWidth(s, e) * Pow2(layer)
    decreases n - layer
  {
    DeallocRangeOk(n, bits, s, e, layer);
    var up := layer + 1;
    var b2 := EndEdge(n, StartEdge(n, bits, s, layer).bits, e, layer).bits;
    var rbits := DeallocRangeSpec(n, bits, s, e, layer).value.bits;
    EdgeAccounting(n, bits, s, e, layer);
    DeallocRangeStep(n, bits, s, e, layer, up);
    if AboveStart(s) < AboveEnd(e) {
      DeallocRangeAccounting(n, b2, AboveStart(s), AboveEnd(e), up);
      Pow2Half(up, layer);
      UpSum(s, e, Pow2(layer), Pow2(up), FreeUnits(bits, n), FreeUnits(b2, n), FreeUnits(rbits, n));
    } else {
      EdgesSum(s, e, Pow2(layer), FreeUnits(bits, n), FreeUnits(b2, n));
    }
  }

  /** A successful `dealloc_range` found the range inside the layer and
      all used, and freed both edges. */
  lemma DeallocRangeOk(n: nat, bits: seq<bool>, s: nat, e: nat, layer: nat)
    requires |bits| == Size(n) && n >= 1
    requires DeallocRangeSpec(n, bits, s, e, layer).Returns?
    requires DeallocRangeSpec(n, bits, s, e, layer).value.result.Ok?
    ensures layer < n && s <= e <= LayerLen(n, layer) && FirstZeroFrom(bits, n, layer, s, e).None?
    ensures StartEdge(n, bits, s, layer).result.Ok?
    ensures EndEdge(n, StartEdge(n, bits, s, layer).bits, e, layer).result.Ok?
  {
  }

  /** The accounting when the parents are freed one layer up: the edges
      plus the parents' blocks, each worth two of this layer. */
  lemma UpSum(s: nat, e: nat, p: int, pu: int, f0: int, f2: int, fr: int)
    requires s <= e && AboveStart(s) < AboveEnd(e) && pu == 2 * p
    requires f2 == f0 + (if s % 2 == 1 then p else 0) + (if e % 2 == 1 then p else 0)
    requires fr == f2 + FreedWidth(AboveStart(s), AboveEnd(e)) * pu
    ensures fr == f0 + FreedWidth(s, e) * p
  {
    EdgeWidth(s, e);
    var wa := FreedWidth(AboveStart(s), AboveEnd(e));
    AccountingSum(f0, f2, fr, s % 2, e % 2, wa, p, pu, FreedWidth(s, e), wa * pu);
  }

  /** The accounting when no parent is freed: the edges alone. */
  lemma EdgesSum(s: nat, e: nat, p: int, f0: int, f2: int)
    requires s <= e && AboveStart(s) >= AboveEnd(e)
    requires f2 == f0 + (if s % 2 == 1 then p else 0) + (if e % 2 == 1 then p else 0)
    ensures f2 == f0 + FreedWidth(s, e) * p
  {
    EdgeWidth(s, e);
    ScaleEdges(p, s % 2, e % 2, 0, FreedWidth(s, e));
  }

  /** Each edge freed on its own adds one block of the layer. */
  lemma {:induction false} EdgeAccounting(n: nat, bits: seq<bool>, s: nat, e: nat, layer: nat)
    requires |bits| == Size(n) && n >= 1
    requires StartEdge(n, bits, s, layer).result.Ok?
    requires EndEdge(n, StartEdge(n, bits, s, layer).bits, e, layer).result.Ok?
    ensures FreeUnits(EndEdge(n, StartEdge(n, bits, s, layer).bits, e, layer).bits, n)
      == FreeUnits(bits, n) + (if s % 2 == 1 then Pow2(layer) else 0) + (if e % 2 == 1 then Pow2(layer) else 0)
  {
    var first := StartEdge(n, bits, s, layer);
    var second := EndEdge(n, first.bits, e, layer);
    var f0, f1, f2 := FreeUnits(bits, n), FreeUnits(first.bits, n), FreeUnits(second.bits, n);
    if s % 2 == 1 {
      DeallocBitAccounting(n, bits, s, layer);
      assert f1 == f0 + Pow2(layer);
    } else {
      assert first.bits == bits;
    }
    if e % 2 == 1 {
      DeallocBitAccounting(n, first.bits, e - 1, layer);
      assert f2 == f1 + Pow2(layer);
    } else {
      assert second.bits == first.bits;
    }
  }

  /** The free capacity after the edges and after the parents add up. */
  lemma AccountingSum(f0: int, f2: int, fr: int, x: int, y: int, wa: int, p: int, pu: int, width: int, wu: int)
    requires 0 <= x <= 1 && 0 <= y <= 1 && width == x + y + 2 * wa
    requires f2 == f0 + (if x == 1 then p else 0) + (if y == 1 then p else 0)
    requires fr == f2 + wu && wu == wa * pu && pu == 2 * p
    ensures fr == f0 + width * p
  {
    ScaleEdges(p, x, y, wa, width);
  }

  /** `p` times a width made of two edges and a doubled middle. */
  lemma ScaleEdges(p: int, x: int, y: int, w: int, width: int)
    requires 0 <= x <= 1 && 0 <= y <= 1 && width == x + y + 2 * w
    ensures (if x == 1 then p else 0) + (if y == 1 then p else 0) + w * (2 * p) == width * p
  {
    MulAdd(p, x + y, 2 * w);
  }

  /** The width of a range is its two unpaired edges plus twice the
      width of the parent range; when the parent range is empty, the
      edges alone, except that an empty range at an odd index has two. */
  lemma EdgeWidth(s: nat, e: nat)
    requires s <= e
    ensures AboveStart(s) < AboveEnd(e) ==> (s % 2) + (e % 2) + 2 * (AboveEnd(e) - AboveStart(s)) == e - s
    ensures AboveStart(s) >= AboveEnd(e) ==> (s % 2) + (e % 2) == (e - s) + (if s == e && s % 2 == 1 then 2 else 0)
  {
  }

  /** An empty range at an even index frees nothing. */
  lemma EmptyEvenRange(n: nat, bits: seq<bool>, e: nat, layer: nat)
    requires |bits| == Size(n) && n >= 1 && layer < n && e <= LayerLen(n, layer) && e % 2 == 0
    ensures DeallocRangeSpec(n, bits, e, e, layer) == Returns(Outcome(Ok(()), bits))
  {
  }

  /** `alloc_range` never panics: the surplus it frees lies inside the
      parents it allocated. A successful call returns `len` blocks inside
      the layer, and a zero length changes nothing. */
  lemma {:induction false} AllocRangeShape(n: nat, bits: seq<bool>, len: nat, layer: nat)
    requires |bits| == Size(n) && n >= 1
    ensures var r := AllocRangeSpec(n, bits, len, layer);
      && r.Returns?
      && (r.value.result.Ok? ==>
        r.value.result.value.end == r.value.result.value.start + len <= LayerLen(n, layer))
      && (len == 0 && layer < n ==> r.value == Outcome(Ok(Range(0, 0)), bits))
    decreases n - layer
  {
    if layer < n && len >= 2 {
      var aboveLen := (len + len % 2) / 2;
      AllocRangeShape(n, bits, aboveLen, layer + 1);
      AllocRangeStep(n, bits, len, layer, layer + 1, aboveLen);
      var above := AllocRangeSpec(n, bits, aboveLen, layer + 1);
      if above.value.result.Ok? {
        TrimShape(n, above.value.bits, above.value.result.value, len, layer);
      }
    }
  }

  /** The surplus `alloc_range` frees lies inside the layer, so trimming
      never panics and keeps exactly `len` blocks. */
  lemma TrimShape(n: nat, bits: seq<bool>, above: Range, len: nat, layer: nat)
    requires |bits| == Size(n) && n >= 1 && len >= 2
    requires above.end == above.start + (len + len % 2) / 2 <= LayerLen(n, layer + 1)
    ensures var r := TrimSurplus(n, bits, above, len, layer);
      r.Returns? && (r.value.result.Ok? ==>
        r.value.result.value.end == r.value.result.value.start + len <= LayerLen(n, layer))
  {
    assert layer + 1 < n;
    LayerHalves(n, layer);
    DeallocRangePanics(n, bits, 2 * above.start + len, 2 * above.end, layer);
  }

  /** Each layer holds 2^k times as many blocks as the layer k above it. */
  lemma {:induction false} LayerLenScale(n: nat, l: nat, k: nat)
    requires l + k < n
    ensures LayerLen(n, l) == Pow2(k) * LayerLen(n, l + k)
    decreases k
  {
    if k > 0 {
      LayerLenScale(n, l + 1, k - 1);
      LayerHalves(n, l);
      assert Pow2(k) * LayerLen(n, l + k) == 2 * (Pow2(k - 1) * LayerLen(n, l + k));
    }
  }

  /** The run of `p` blocks below the block `alloc_bit` returned in the
      layer where a block spans `p` of them, with the same storage and
      error. */
  function Scaled(o: Outcome<nat>, p: nat): Outcome<Range>
  {
    Outcome(if o.result.Ok? then Ok(Range(p * o.result.value, p * (o.result.value + 1)))
            else Err(o.result.error), o.bits)
  }

  /** A request for 2^k blocks is one `alloc_bit` k layers up (at layer
      `top`), scaled down: the range is the aligned run of 2^k blocks
      below the block `alloc_bit` returns, and the storage is the same. */
  lemma {:induction false} AllocRangePow2(n: nat, bits: seq<bool>, k: nat, layer: nat, top: nat)
    requires |bits| == Size(n) && top == layer + k && top < n
    ensures AllocRangeSpec(n, bits, Pow2(k), layer) == Returns(Scaled(AllocBitSpec(n, bits, top), Pow2(k)))
    decreases k
  {
    if k > 0 {
      var km1, up := k - 1, layer + 1;
      AllocRangePow2(n, bits, km1, up, top);
      Pow2Step(n, bits, k, layer, km1, up, top);
    }
  }

  /** The inductive step of `AllocRangePow2`. */
  lemma {:induction false} Pow2Step(n: nat, bits: seq<bool>, k: nat, layer: nat, km1: nat, up: nat, top: nat)
    requires |bits| == Size(n) && k == km1 + 1 && up == layer + 1 && top == layer + k && top < n
    requires AllocRangeSpec(n, bits, Pow2(km1), up) == Returns(Scaled(AllocBitSpec(n, bits, top), Pow2(km1)))
    ensures AllocRangeSpec(n, bits, Pow2(k), layer) == Returns(Scaled(AllocBitSpec(n, bits, top), Pow2(k)))
  {
    var o := AllocBitSpec(n, bits, top);
    var len, half := Pow2(k), Pow2(km1);
    Pow2Half(k, km1);
    AllocRangeStep(n, bits, len, layer, up, half);
    if o.result.Ok? {
      var a := o.result.value;
      var ra := ScaledRange(a, half);
      ScaledOk(o, half, a);
      ScaledOk(o, len, a);
      TrimPow2(n, o.bits, a, k, layer, km1, top);
    } else {
      ScaledErr(o, half);
      ScaledErr(o, len);
    }
  }

  /** The range `Scaled` gives for block `a`. */
  function ScaledRange(a: nat, p: nat): Range
  {
    Range(p * a, p * (a + 1))
  }

  lemma ScaledOk(o: Outcome<nat>, p: nat, a: nat)
    requires o.result == Ok(a)
    ensures Scaled(o, p) == Outcome(Ok(ScaledRange(a, p)), o.bits)
  {
  }

  lemma ScaledErr(o: Outcome<nat>, p: nat)
    requires o.result.Err?
    ensures Scaled(o, p) == Outcome(Err(o.result.error), o.bits)
  {
  }

  /** Trimming the halves of one block k-1 layers up to 2^k blocks keeps
      them all and frees nothing. */
  lemma TrimPow2(n: nat, bits: seq<bool>, a: nat, k: nat, layer: nat, km1: nat, top: nat)
    requires |bits| == Size(n) && k == km1 + 1 && top == layer + k && top < n && a < LayerLen(n, top)
    ensures TrimSurplus(n, bits, ScaledRange(a, Pow2(km1)), Pow2(k), layer)
      == Returns(Outcome(Ok(ScaledRange(a, Pow2(k))), bits))
  {
    var half, pk := Pow2(km1), Pow2(k);
    Pow2Half(k, km1);
    DoubledRange(half, pk, a);
    LayerLenScale(n, layer, k);
    MulMono(pk, a + 1, LayerLen(n, top));
    TrimExact(n, bits, ScaledRange(a, half), pk, layer);
  }

  /** Doubling the halves of block `a` of size `half` gives block `a` of
      size `2 * half`, which is even. */
  lemma DoubledRange(half: nat, pk: nat, a: nat)
    requires pk == 2 * half
    ensures 2 * ScaledRange(a, half).start == ScaledRange(a, pk).start
    ensures 2 * ScaledRange(a, half).start + pk == ScaledRange(a, pk).end == 2 * ScaledRange(a, half).end
    ensures ScaledRange(a, pk).end % 2 == 0
  {
    MulAdd(pk, a, 1);
    MulAdd(half, a, 1);
  }

  /** Trimming when the halves of the parents are exactly what was asked
      for frees nothing. */
  lemma TrimExact(n: nat, bits: seq<bool>, above: Range, len: nat, layer: nat)
    requires |bits| == Size(n) && n >= 1 && layer < n
    requires 2 * above.start + len == 2 * above.end <= LayerLen(n, layer)
    ensures TrimSurplus(n, bits, above, len, layer) == Returns(Outcome(Ok(Range(2 * above.start, 2 * above.end)), bits))
  {
    EmptyEvenRange(n, bits, 2 * above.end, layer);
  }

  /** 2^k for k >= 1 is even, and `alloc_range` asks for 2^(k-1)
      parents for it. */
  lemma Pow2Half(k: nat, km1: nat)
    requires k == km1 + 1
    ensures Pow2(k) == 2 * Pow2(km1) >= 2 && Pow2(k) % 2 == 0 && (Pow2(k) + Pow2(k) % 2) / 2 == Pow2(km1)
  {
  }
}
