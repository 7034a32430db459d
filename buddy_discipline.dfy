/** The buddy discipline (`Inv`: no free block lies inside a free block)
    is kept by every operation of `BuddyBitmap`, and the free capacity
    moves by exactly the size of what was handed out or back. */
module BuddyDiscipline {
  import opened Base
  import opened BuddyLayout
  import opened BuddyOps

  /** `alloc_bit` keeps the discipline. The block it returns was
      available (free, or inside a free block) and is now allocated: used
      itself, with no free block above or below it; the layers below the
      requested one are untouched and the free capacity shrinks by the
      block's size. */
  lemma {:induction false} AllocBitKeepsInv(n: nat, bits: seq<bool>, layer: nat)
    requires Inv(bits, n)
    ensures var o := AllocBitSpec(n, bits, layer);
      && Inv(o.bits, n)
      && (o.result.Ok? ==>
        && Available(bits, n, layer, o.result.value)
        && Allocated(o.bits, n, layer, o.result.value)
        && FreeUnits(o.bits, n) + Pow2(layer) == FreeUnits(bits, n))
    decreases n - layer
  {
    if layer < n {
      match FirstZeroFrom(bits, n, layer, 0, LayerLen(n, layer))
      case Some(idx) =>
        TakeKeepsInv(n, bits, layer, idx);
      case None =>
        var up := layer + 1;
        AllocBitKeepsInv(n, bits, up);
        AllocBitOutcome(n, bits, up);
        SplitCaseKeepsInv(n, bits, layer, up, AllocBitSpec(n, bits, up));
    }
  }

  /** The case of `alloc_bit` where the layer has no free bit, given what
      the call one layer up did. */
  lemma SplitCaseKeepsInv(n: nat, bits: seq<bool>, layer: nat, up: nat, above: Outcome<nat>)
    requires Inv(bits, n) && layer < n && up == layer + 1 && above == AllocBitSpec(n, bits, up)
    requires FirstZeroFrom(bits, n, layer, 0, LayerLen(n, layer)).None?
    requires Inv(above.bits, n) && Agree(bits, above.bits, n, 0, up)
    requires above.result.Ok? ==>
      && Available(bits, n, up, above.result.value)
      && Allocated(above.bits, n, up, above.result.value)
      && FreeUnits(above.bits, n) + Pow2(up) == FreeUnits(bits, n)
    requires above.result.Err? ==> above.bits == bits
    ensures var o := AllocBitSpec(n, bits, layer);
      && Inv(o.bits, n)
      && (o.result.Ok? ==>
        && Available(bits, n, layer, o.result.value)
        && Allocated(o.bits, n, layer, o.result.value)
        && FreeUnits(o.bits, n) + Pow2(layer) == FreeUnits(bits, n))
  {
    if above.result.Ok? {
      AllocBitSplitOk(n, bits, layer, up, above);
      SplitKeepsInv(n, bits, layer, above.result.value, above.bits);
    } else {
      AllocBitSplitErr(n, bits, layer, up, above);
    }
  }

  /** `alloc_bit` on a layer without a free bit, when the parent `a` was
      allocated one layer up: its right half is freed and its left half
      returned. */
  lemma AllocBitSplitOk(n: nat, bits: seq<bool>, layer: nat, up: nat, above: Outcome<nat>)
    requires |bits| == Size(n) && layer < n && up == layer + 1 && above == AllocBitSpec(n, bits, up)
    requires FirstZeroFrom(bits, n, layer, 0, LayerLen(n, layer)).None? && above.result.Ok?
    ensures up < n && 2 * above.result.value + 1 < LayerLen(n, layer)
    ensures AllocBitSpec(n, bits, layer)
      == Outcome(Ok(2 * above.result.value), Set(above.bits, n, layer, 2 * above.result.value + 1, false))
  {
    LayerHalves(n, layer);
  }

  /** `alloc_bit` on a layer without a free bit, when the call one layer
      up failed: the storage it left is kept and an error returned. */
  lemma AllocBitSplitErr(n: nat, bits: seq<bool>, layer: nat, up: nat, above: Outcome<nat>)
    requires |bits| == Size(n) && layer < n && up == layer + 1 && above == AllocBitSpec(n, bits, up)
    requires FirstZeroFrom(bits, n, layer, 0, LayerLen(n, layer)).None? && above.result.Err?
    ensures AllocBitSpec(n, bits, layer).result.Err? && AllocBitSpec(n, bits, layer).bits == above.bits
  {
  }

  /** The direct step of `alloc_bit`: a free bit of the layer is taken. */
  lemma {:induction false} TakeKeepsInv(n: nat, bits: seq<bool>, layer: nat, idx: nat)
    requires Inv(bits, n) && idx < LayerLen(n, layer) && !Get(bits, n, layer, idx)
    ensures var after := Set(bits, n, layer, idx, true);
      && Inv(after, n)
      && Allocated(after, n, layer, idx)
      && FreeUnits(after, n) + Pow2(layer) == FreeUnits(bits, n)
  {
    var after := Set(bits, n, layer, idx, true);
    UsePreservesInv(bits, n, layer, idx);
    GetSet(bits, n, layer, idx, true, layer, idx);
    SetAgree(bits, n, layer, idx, true);
    FreeNotCovered(bits, n, layer, idx);
    CoveredAgree(bits, after, n, layer, idx);
    AvailableDescUsed(bits, n, layer, idx);
    DescUsedAgree(bits, after, n, layer, idx);
    FreeUnitsSet(bits, n, layer, idx, true);
  }

  /** The split step of `alloc_bit`: the parent `a` was just allocated
      one layer up, so its right half is freed and its left half is the
      allocated block. */
  lemma {:induction false} SplitKeepsInv(n: nat, bits: seq<bool>, layer: nat, a: nat, b1: seq<bool>)
    requires Inv(bits, n) && layer + 1 < n && a < LayerLen(n, layer + 1)
    requires FirstZeroFrom(bits, n, layer, 0, LayerLen(n, layer)).None?
    requires Inv(b1, n) && Available(bits, n, layer + 1, a) && Allocated(b1, n, layer + 1, a)
    requires FreeUnits(b1, n) + Pow2(layer + 1) == FreeUnits(bits, n)
    requires Agree(bits, b1, n, 0, layer + 1)
    ensures 2 * a + 1 < LayerLen(n, layer)
    ensures var b2 := Set(b1, n, layer, 2 * a + 1, false);
      && Inv(b2, n)
      && Available(bits, n, layer, 2 * a)
      && Allocated(b2, n, layer, 2 * a)
      && FreeUnits(b2, n) + Pow2(layer) == FreeUnits(bits, n)
  {
    LayerHalves(n, layer);
    var l, r := 2 * a, 2 * a + 1;
    assert l / 2 == a && r / 2 == a;
    // Both halves lie inside the available parent, hence are covered.
    assert Covered(bits, n, layer, r) && Covered(bits, n, layer, l);
    AvailableDescUsed(bits, n, layer, r);
    DescUsedAgree(bits, b1, n, layer, r);
    // In `b1` the parent is allocated, so the right half is not covered.
    assert !Covered(b1, n, layer, r);
    FreePreservesInv(b1, n, layer, r);
    var b2 := Set(b1, n, layer, r, false);
    GetSet(b1, n, layer, r, false, layer, l);
    SetAgree(b1, n, layer, r, false);
    CoveredAgree(b1, b2, n, layer, l);
    assert !Covered(b1, n, layer, l);
    AvailableDescUsed(bits, n, layer, l);
    AgreeTrans(bits, b1, b2, n, 0, layer);
    DescUsedAgree(bits, b2, n, layer, l);
    FreeUnitsSet(b1, n, layer, r, false);
  }

  /** `dealloc_bit` of an allocated block keeps the discipline and
      succeeds; the block becomes available (free, or inside the free
      block the merging produced) and the free capacity grows by its
      size. The layers below are untouched. */
  lemma {:induction false} DeallocBitKeepsInv(n: nat, bits: seq<bool>, idx: nat, layer: nat)
    requires Inv(bits, n) && n >= 1 && idx < LayerLen(n, layer) && Allocated(bits, n, layer, idx)
    ensures var o := DeallocBitSpec(n, bits, idx, layer);
      && o.result.Ok?
      && Inv(o.bits, n)
      && Available(o.bits, n, layer, idx)
      && Agree(bits, o.bits, n, 0, layer)
    decreases n - layer
  {
    var o := DeallocBitSpec(n, bits, idx, layer);
    var cleared := Set(bits, n, layer, idx, false);
    GetSet(bits, n, layer, idx, false, layer, idx);
    SetAgree(bits, n, layer, idx, false);
    if layer == n - 1 {
      assert idx == 0;
      FreePreservesInv(bits, n, layer, idx);
    } else {
      LayerHalves(n, layer);
      var buddy := idx - idx % 2 + (idx + 1) % 2;
      GetSet(bits, n, layer, idx, false, layer, buddy);
      if !Get(bits, n, layer, buddy) {
        var merged := Set(bits, n, layer, buddy, true);
        var up, half := layer + 1, idx / 2;
        DeallocBitMergeStep(n, bits, idx, layer, up, half);
        MergeReady(n, bits, idx, layer, buddy, up, half);
        DeallocBitKeepsInv(n, merged, half, up);
        MergedAvailable(n, bits, merged, o.bits, idx, layer, buddy, up, half);
      } else {
        assert o.bits == cleared;
        FreePreservesInv(bits, n, layer, idx);
      }
    }
  }

  /** After a merge: the parent being available one layer up makes the
      block available, and the layers below are as before the call. */
  lemma MergedAvailable(n: nat, bits: seq<bool>, merged: seq<bool>, after: seq<bool>, idx: nat, layer: nat,
                        buddy: nat, up: nat, half: nat)
    requires |bits| == Size(n) && |after| == Size(n) && up == layer + 1 && up < n && half == idx / 2
    requires idx < LayerLen(n, layer) && half < LayerLen(n, up) && buddy < LayerLen(n, layer)
    requires merged == Set(bits, n, layer, buddy, true)
    requires Available(after, n, up, half) && Agree(merged, after, n, 0, up)
    ensures Available(after, n, layer, idx) && Agree(bits, after, n, 0, layer)
  {
    SetAgree(bits, n, layer, buddy, true);
    assert Covered(after, n, layer, idx);
  }

  /** Before a merge: with the block allocated and its buddy free, marking
      the buddy used leaves the parent allocated one layer up. */
  lemma {:induction false} MergeReady(n: nat, bits: seq<bool>, idx: nat, layer: nat, buddy: nat, up: nat, p: nat)
    requires Inv(bits, n) && up == layer + 1 && up < n && p == idx / 2
    requires idx < LayerLen(n, layer) && Allocated(bits, n, layer, idx)
    requires buddy == idx - idx % 2 + (idx + 1) % 2 && buddy < LayerLen(n, layer)
    requires !Get(bits, n, layer, buddy)
    ensures p < LayerLen(n, up)
    ensures var merged := Set(bits, n, layer, buddy, true);
      Inv(merged, n) && Allocated(merged, n, up, p)
  {
    LayerHalves(n, layer);
    var merged := Set(bits, n, layer, buddy, true);
    UsePreservesInv(bits, n, layer, buddy);
    SetAgree(bits, n, layer, buddy, true);
    assert Get(merged, n, up, p) by {
      GetSet(bits, n, layer, buddy, true, up, p);
    }
    assert !Covered(merged, n, up, p) by {
      CoveredAgree(bits, merged, n, up, p);
    }
    assert Get(merged, n, layer, idx) && DescUsed(merged, n, layer, idx) by {
      GetSet(bits, n, layer, buddy, true, layer, idx);
      DescUsedAgree(bits, merged, n, layer, idx);
    }
    assert Get(merged, n, layer, buddy) && DescUsed(merged, n, layer, buddy) by {
      GetSet(bits, n, layer, buddy, true, layer, buddy);
      AvailableDescUsed(bits, n, layer, buddy);
      DescUsedAgree(bits, merged, n, layer, buddy);
    }
    if idx % 2 == 0 {
      ParentDescUsed(merged, n, layer, up, p, idx, buddy);
    } else {
      ParentDescUsed(merged, n, layer, up, p, buddy, idx);
    }
  }

  /** A block whose two halves are used, with everything below them
      used, has everything below it used. */
  lemma ParentDescUsed(bits: seq<bool>, n: nat, l: nat, up: nat, p: nat, left: nat, right: nat)
    requires |bits| == Size(n) && up == l + 1 && up < n && left == 2 * p && right == 2 * p + 1
    requires right < LayerLen(n, l) && p < LayerLen(n, up)
    requires Get(bits, n, l, left) && Get(bits, n, l, right)
    requires DescUsed(bits, n, l, left) && DescUsed(bits, n, l, right)
    ensures DescUsed(bits, n, up, p)
  {
  }

  /** With every bit above layer `l` used, nothing at layer `l` lies
      inside a free block. */
  lemma {:induction false} UsedAboveNotCovered(bits: seq<bool>, n: nat, l: nat, j: nat)
    requires |bits| == Size(n) && j < LayerLen(n, l) && UsedFrom(bits, n, l + 1)
    ensures !Covered(bits, n, l, j)
    decreases n - l
  {
    if l + 1 < n {
      LayerHalves(n, l);
      UsedAboveNotCovered(bits, n, l + 1, j / 2);
    }
  }

  /** A used, uncovered block with everything below it used, whose buddy
      is used too (or which is the top block), is freed by `dealloc_bit`
      without merging, and the discipline holds afterwards. */
  lemma {:induction false} FreeAlone(n: nat, bits: seq<bool>, k: nat, layer: nat)
    requires Inv(bits, n) && n >= 1 && k < LayerLen(n, layer) && UsedFrom(bits, n, layer + 1)
    requires Get(bits, n, layer, k) && DescUsed(bits, n, layer, k)
    requires layer + 1 < n ==> k - k % 2 + 2 <= LayerLen(n, layer) && Get(bits, n, layer, k - k % 2 + (k + 1) % 2)
    ensures DeallocBitSpec(n, bits, k, layer) == Outcome(Ok(()), Set(bits, n, layer, k, false))
    ensures var after := Set(bits, n, layer, k, false);
      && Inv(after, n) && UsedFrom(after, n, layer + 1) && Agree(bits, after, n, 0, layer)
      && forall j: nat :: j < LayerLen(n, layer) ==> Get(after, n, layer, j) == (j != k && Get(bits, n, layer, j))
  {
    SetFrame(bits, n, layer, k, false);
    UsedAboveNotCovered(bits, n, layer, k);
    FreePreservesInv(bits, n, layer, k);
    FreeAloneResult(n, bits, k, layer);
  }

  /** `dealloc_bit` of a used block whose buddy is used (or the top block)
      only clears its bit. */
  lemma FreeAloneResult(n: nat, bits: seq<bool>, k: nat, layer: nat)
    requires |bits| == Size(n) && n >= 1 && layer < n && k < LayerLen(n, layer) && Get(bits, n, layer, k)
    requires layer + 1 < n ==> k - k % 2 + 2 <= LayerLen(n, layer) && Get(bits, n, layer, k - k % 2 + (k + 1) % 2)
    ensures DeallocBitSpec(n, bits, k, layer) == Outcome(Ok(()), Set(bits, n, layer, k, false))
  {
    if layer == n - 1 {
      assert k == 0;
    } else {
      var buddy := k - k % 2 + (k + 1) % 2;
      assert buddy != k;
      GetSet(bits, n, layer, k, false, layer, buddy);
    }
  }

  /** The storage once the unpaired edges of `s..e` are cleared. */
  function EdgesCleared(n: nat, bits: seq<bool>, s: nat, e: nat, layer: nat): (r: seq<bool>)
    requires |bits| == Size(n) && s <= e <= LayerLen(n, layer) && !(s == e && s % 2 == 1)
    ensures |r| == |bits|
  {
    var b1 := if s % 2 == 1 then Set(bits, n, layer, s, false) else bits;
    if e % 2 == 1 then Set(b1, n, layer, e - 1, false) else b1
  }

  /** On a layer with everything from it upwards used, the edges of a
      range are freed alone: both edge calls succeed and leave
      `EdgesCleared`; the discipline holds, the layers above stay used,
      and at the layer itself exactly the edge bits are free. */
  lemma {:induction false} EdgesFresh(n: nat, bits: seq<bool>, s: nat, e: nat, layer: nat)
    requires Inv(bits, n) && n >= 1 && layer < n && UsedFrom(bits, n, layer)
    requires s <= e <= LayerLen(n, layer) && !(s == e && s % 2 == 1)
    requires forall k :: s <= k < e ==> DescUsed(bits, n, layer, k)
    ensures var first := StartEdge(n, bits, s, layer);
      && first.result.Ok?
      && EndEdge(n, first.bits, e, layer).result.Ok?
      && EndEdge(n, first.bits, e, layer).bits == EdgesCleared(n, bits, s, e, layer)
    ensures var b2 := EdgesCleared(n, bits, s, e, layer);
      && Inv(b2, n)
      && UsedFrom(b2, n, layer + 1)
      && Agree(bits, b2, n, 0, layer)
      && forall k: nat :: k < LayerLen(n, layer) ==>
        (Get(b2, n, layer, k) <==> !((s % 2 == 1 && k == s) || (e % 2 == 1 && k == e - 1)))
  {
    if layer + 1 < n {
      LayerHalves(n, layer);
    }
    var b1 := if s % 2 == 1 then Set(bits, n, layer, s, false) else bits;
    StartFresh(n, bits, s, e, layer);
    if e % 2 == 1 {
      DescUsedAgree(bits, b1, n, layer, e - 1);
    }
    EndFresh(n, b1, s, e, layer);
    AgreeTrans(bits, b1, EdgesCleared(n, bits, s, e, layer), n, 0, layer);
  }

  /** The end edge, once the start edge is cleared. */
  lemma {:induction false} EndFresh(n: nat, b1: seq<bool>, s: nat, e: nat, layer: nat)
    requires Inv(b1, n) && n >= 1 && layer < n && UsedFrom(b1, n, layer + 1)
    requires s <= e <= LayerLen(n, layer) && !(s == e && s % 2 == 1)
    requires forall j: nat :: j < LayerLen(n, layer) ==> Get(b1, n, layer, j) == !(s % 2 == 1 && j == s)
    requires e % 2 == 1 ==> DescUsed(b1, n, layer, e - 1)
    ensures var b2 := if e % 2 == 1 then Set(b1, n, layer, e - 1, false) else b1;
      && EndEdge(n, b1, e, layer) == Outcome(Ok(()), b2)
      && Inv(b2, n) && UsedFrom(b2, n, layer + 1) && Agree(b1, b2, n, 0, layer)
      && forall j: nat :: j < LayerLen(n, layer) ==>
        Get(b2, n, layer, j) == !((s % 2 == 1 && j == s) || (e % 2 == 1 && j == e - 1))
  {
    if e % 2 == 1 {
      EndFreshOdd(n, b1, s, e, layer, e - 1);
    }
  }

  /** The end edge at an odd end `e == i + 1`: block `i` is set free. */
  lemma {:induction false} EndFreshOdd(n: nat, b1: seq<bool>, s: nat, e: nat, layer: nat, i: nat)
    requires Inv(b1, n) && n >= 1 && layer < n && UsedFrom(b1, n, layer + 1)
    requires s <= e <= LayerLen(n, layer) && !(s == e && s % 2 == 1)
    requires e % 2 == 1 && i == e - 1
    requires forall j: nat :: j < LayerLen(n, layer) ==> Get(b1, n, layer, j) == !(s % 2 == 1 && j == s)
    requires DescUsed(b1, n, layer, i)
    ensures var b2 := Set(b1, n, layer, i, false);
      && EndEdge(n, b1, e, layer) == Outcome(Ok(()), b2)
      && Inv(b2, n) && UsedFrom(b2, n, layer + 1) && Agree(b1, b2, n, 0, layer)
      && forall j: nat :: j < LayerLen(n, layer) ==>
        Get(b2, n, layer, j) == !((s % 2 == 1 && j == s) || j == i)
  {
    assert i % 2 == 0 && i - i % 2 + (i + 1) % 2 == e;
    if layer + 1 < n {
      LayerHalves(n, layer);
      assert Get(b1, n, layer, e);
    }
    assert Get(b1, n, layer, i);
    FreeAlone(n, b1, i, layer);
  }

  /** The start edge alone. */
  lemma {:induction false} StartFresh(n: nat, bits: seq<bool>, s: nat, e: nat, layer: nat)
    requires Inv(bits, n) && n >= 1 && layer < n && UsedFrom(bits, n, layer)
    requires s <= e <= LayerLen(n, layer) && !(s == e && s % 2 == 1)
    requires forall k :: s <= k < e ==> DescUsed(bits, n, layer, k)
    ensures var b1 := if s % 2 == 1 then Set(bits, n, layer, s, false) else bits;
      && StartEdge(n, bits, s, layer) == Outcome(Ok(()), b1)
      && Inv(b1, n) && UsedFrom(b1, n, layer + 1) && Agree(bits, b1, n, 0, layer)
      && forall j: nat :: j < LayerLen(n, layer) ==> Get(b1, n, layer, j) == !(s % 2 == 1 && j == s)
  {
    if s % 2 == 1 {
      if layer + 1 < n {
        LayerHalves(n, layer);
      }
      assert Get(bits, n, layer, s - 1);
      FreeAlone(n, bits, s, layer);
    }
  }

  /** What `dealloc_range(s..e, layer)` leaves on fresh storage: the
      discipline holds, the lower layers are as they were, exactly the
      blocks of the range are available, and the blocks outside it are
      still used and not inside a free block. */
  ghost predicate FreedExactly(bits: seq<bool>, after: seq<bool>, n: nat, s: nat, e: nat, layer: nat)
    requires |bits| == Size(n) && |after| == Size(n)
  {
    && Inv(after, n)
    && Agree(bits, after, n, 0, layer)
    && (forall k: nat :: k < LayerLen(n, layer) ==> (Available(after, n, layer, k) <==> s <= k < e))
    && (forall k: nat :: k < LayerLen(n, layer) && !(s <= k < e) ==>
      Get(after, n, layer, k) && !Covered(after, n, layer, k))
  }

  /** `dealloc_range(s..e, layer)` on fresh storage (this layer and all
      above it used, everything below the range used) succeeds and frees
      exactly the range (`DeallocRangeAccounting` gives the capacity it
      adds). An empty range at an odd index is excluded: it frees the two
      blocks around it. */
  lemma {:induction false} DeallocRangeFresh(n: nat, bits: seq<bool>, s: nat, e: nat, layer: nat)
    requires Inv(bits, n) && n >= 1 && layer < n && UsedFrom(bits, n, layer)
    requires s <= e <= LayerLen(n, layer) && !(s == e && s % 2 == 1)
    requires forall k :: s <= k < e ==> DescUsed(bits, n, layer, k)
    ensures var r := DeallocRangeSpec(n, bits, s, e, layer);
      r.Returns? && r.value.result.Ok? && FreedExactly(bits, r.value.bits, n, s, e, layer)
    decreases n - layer, 1
  {
    if AboveStart(s) < AboveEnd(e) {
      MiddleFresh(n, bits, s, e, layer);
    } else {
      EdgesOnlyFresh(n, bits, s, e, layer);
    }
  }

  /** `DeallocRangeFresh` for a range with parents one layer up: the
      edges are freed here and the parents one layer up. */
  lemma {:induction false} MiddleFresh(n: nat, bits: seq<bool>, s: nat, e: nat, layer: nat)
    requires Inv(bits, n) && n >= 1 && layer < n && UsedFrom(bits, n, layer)
    requires s <= e <= LayerLen(n, layer) && !(s == e && s % 2 == 1)
    requires forall k :: s <= k < e ==> DescUsed(bits, n, layer, k)
    requires AboveStart(s) < AboveEnd(e)
    ensures var r := DeallocRangeSpec(n, bits, s, e, layer);
      r.Returns? && r.value.result.Ok? && FreedExactly(bits, r.value.bits, n, s, e, layer)
    decreases n - layer, 0
  {
    var b2 := EdgesCleared(n, bits, s, e, layer);
    var lo, hi, up := AboveStart(s), AboveEnd(e), layer + 1;
    EdgesFresh(n, bits, s, e, layer);
    LayerHalves(n, layer);
    MiddleResult(n, bits, s, e, layer, up);
    ParentsReady(n, bits, b2, s, e, layer, up);
    DeallocRangeFresh(n, b2, lo, hi, up);
    MiddleFreed(n, bits, b2, DeallocRangeSpec(n, b2, lo, hi, up).value.bits, s, e, layer, up);
  }

  /** `DeallocRangeFresh` for a range with no parents one layer up. */
  lemma {:induction false} EdgesOnlyFresh(n: nat, bits: seq<bool>, s: nat, e: nat, layer: nat)
    requires Inv(bits, n) && n >= 1 && layer < n && UsedFrom(bits, n, layer)
    requires s <= e <= LayerLen(n, layer) && !(s == e && s % 2 == 1)
    requires forall k :: s <= k < e ==> DescUsed(bits, n, layer, k)
    requires AboveStart(s) >= AboveEnd(e)
    ensures var r := DeallocRangeSpec(n, bits, s, e, layer);
      r.Returns? && r.value.result.Ok? && FreedExactly(bits, r.value.bits, n, s, e, layer)
  {
    EdgesFresh(n, bits, s, e, layer);
    EdgesOnlyResult(n, bits, s, e, layer);
    EdgesOnlyAvailable(n, bits, EdgesCleared(n, bits, s, e, layer), s, e, layer);
  }

  /** A range with parents one layer up continues with them. */
  lemma {:induction false} MiddleResult(n: nat, bits: seq<bool>, s: nat, e: nat, layer: nat, up: nat)
    requires Inv(bits, n) && n >= 1 && layer < n && up == layer + 1 && UsedFrom(bits, n, layer)
    requires s <= e <= LayerLen(n, layer) && !(s == e && s % 2 == 1)
    requires forall k :: s <= k < e ==> DescUsed(bits, n, layer, k)
    requires AboveStart(s) < AboveEnd(e)
    ensures DeallocRangeSpec(n, bits, s, e, layer)
      == DeallocRangeSpec(n, EdgesCleared(n, bits, s, e, layer), AboveStart(s), AboveEnd(e), up)
  {
    assert FirstZeroFrom(bits, n, layer, s, e).None?;
    EdgesFresh(n, bits, s, e, layer);
    DeallocRangeStep(n, bits, s, e, layer, up);
  }

  /** A range with no parents one layer up ends after its edges. */
  lemma {:induction false} EdgesOnlyResult(n: nat, bits: seq<bool>, s: nat, e: nat, layer: nat)
    requires Inv(bits, n) && n >= 1 && layer < n && UsedFrom(bits, n, layer)
    requires s <= e <= LayerLen(n, layer) && !(s == e && s % 2 == 1)
    requires forall k :: s <= k < e ==> DescUsed(bits, n, layer, k)
    requires AboveStart(s) >= AboveEnd(e)
    ensures DeallocRangeSpec(n, bits, s, e, layer) == Returns(Outcome(Ok(()), EdgesCleared(n, bits, s, e, layer)))
  {
    assert FirstZeroFrom(bits, n, layer, s, e).None?;
    EdgesFresh(n, bits, s, e, layer);
    DeallocRangeStep(n, bits, s, e, layer, layer + 1);
  }

  /** After the middle is freed one layer up, the whole range is freed
      exactly at this layer. */
  lemma {:induction false} MiddleFreed(n: nat, bits: seq<bool>, b2: seq<bool>, after: seq<bool>,
                                       s: nat, e: nat, layer: nat, up: nat)
    requires |bits| == Size(n) && |b2| == Size(n) && |after| == Size(n) && up == layer + 1 && up < n
    requires s <= e <= LayerLen(n, layer) && AboveStart(s) < AboveEnd(e)
    requires Agree(bits, b2, n, 0, layer)
    requires forall k: nat :: k < LayerLen(n, layer) ==>
      (Get(b2, n, layer, k) <==> !((s % 2 == 1 && k == s) || (e % 2 == 1 && k == e - 1)))
    requires FreedExactly(b2, after, n, AboveStart(s), AboveEnd(e), up)
    ensures FreedExactly(bits, after, n, s, e, layer)
  {
    AgreeTrans(bits, b2, after, n, 0, layer);
    RangeAvailable(n, b2, after, s, e, layer, up);
  }

  /** The parents of the paired middle of a range have everything below
      them used, as the recursive call one layer up needs. */
  lemma {:induction false} ParentsReady(n: nat, bits: seq<bool>, b2: seq<bool>, s: nat, e: nat, layer: nat, up: nat)
    requires |bits| == Size(n) && |b2| == Size(n) && up == layer + 1 && up < n
    requires s <= e <= LayerLen(n, layer)
    requires forall k :: s <= k < e ==> DescUsed(bits, n, layer, k)
    requires Agree(bits, b2, n, 0, layer)
    requires forall k: nat :: k < LayerLen(n, layer) ==>
      (Get(b2, n, layer, k) <==> !((s % 2 == 1 && k == s) || (e % 2 == 1 && k == e - 1)))
    ensures forall k: nat :: AboveStart(s) <= k < AboveEnd(e) ==> DescUsed(b2, n, up, k)
  {
    LayerHalves(n, layer);
    forall k: nat | AboveStart(s) <= k < AboveEnd(e)
      ensures DescUsed(b2, n, up, k)
    {
      DescUsedAgree(bits, b2, n, layer, 2 * k);
      DescUsedAgree(bits, b2, n, layer, 2 * k + 1);
    }
  }

  /** After the middle is freed one layer up, exactly the blocks of the
      range are available at this layer, and the blocks outside it are
      still used and not inside a free block. */
  lemma {:induction false} RangeAvailable(n: nat, b2: seq<bool>, after: seq<bool>, s: nat, e: nat, layer: nat, up: nat)
    requires |b2| == Size(n) && |after| == Size(n) && up == layer + 1 && up < n
    requires s <= e <= LayerLen(n, layer) && AboveStart(s) < AboveEnd(e)
    requires Agree(b2, after, n, 0, up)
    requires forall k: nat :: k < LayerLen(n, layer) ==>
      (Get(b2, n, layer, k) <==> !((s % 2 == 1 && k == s) || (e % 2 == 1 && k == e - 1)))
    requires forall k: nat :: k < LayerLen(n, up) ==>
      (Available(after, n, up, k) <==> AboveStart(s) <= k < AboveEnd(e))
    requires forall k: nat :: k < LayerLen(n, up) && !(AboveStart(s) <= k < AboveEnd(e)) ==>
      Get(after, n, up, k) && !Covered(after, n, up, k)
    ensures forall k: nat :: k < LayerLen(n, layer) ==> (Available(after, n, layer, k) <==> s <= k < e)
    ensures forall k: nat :: k < LayerLen(n, layer) && !(s <= k < e) ==>
      Get(after, n, layer, k) && !Covered(after, n, layer, k)
  {
    LayerHalves(n, layer);
    forall k: nat | k < LayerLen(n, layer)
      ensures Available(after, n, layer, k) <==> s <= k < e
      ensures !(s <= k < e) ==> Get(after, n, layer, k) && !Covered(after, n, layer, k)
    {
      assert Get(after, n, layer, k) == Get(b2, n, layer, k);
      assert Covered(after, n, layer, k) <==> Available(after, n, up, k / 2);
    }
  }

  /** A range with no parents one layer up consists of its edges, so
      after the edges are cleared exactly the range is available. */
  lemma {:induction false} EdgesOnlyAvailable(n: nat, bits: seq<bool>, b2: seq<bool>, s: nat, e: nat, layer: nat)
    requires |bits| == Size(n) && Inv(b2, n) && layer < n && UsedFrom(b2, n, layer + 1)
    requires Agree(bits, b2, n, 0, layer)
    requires s <= e <= LayerLen(n, layer) && AboveStart(s) >= AboveEnd(e) && !(s == e && s % 2 == 1)
    requires forall k: nat :: k < LayerLen(n, layer) ==>
      (Get(b2, n, layer, k) <==> !((s % 2 == 1 && k == s) || (e % 2 == 1 && k == e - 1)))
    ensures FreedExactly(bits, b2, n, s, e, layer)
  {
    EdgeWidth(s, e);
    forall k: nat | k < LayerLen(n, layer)
      ensures Available(b2, n, layer, k) <==> s <= k < e
      ensures !Covered(b2, n, layer, k)
    {
      UsedAboveNotCovered(b2, n, layer, k);
    }
  }
}
