/** The `bbm_alloc_dealloc` test of
    `kernel/src/arch/x86_64/memory/frame_allocator/buddy.rs`: a bitmap
    whose only free block is the whole top layer hands out exactly
    2^(n-1-L) blocks of layer L, one per call of `alloc_bit` and in
    index order, then reports `OutOfMemory`; freeing those blocks in the
    same order with `dealloc_bit` succeeds every time and merges them
    back into the start state. */
module BuddyExhaustion {
  import opened Base
  import opened BuddyLayout
  import opened BuddyOps
  import opened BuddyDiscipline

  /** The test's starting state: every bit used except the top one. */
  function TopOnly(n: nat): (r: seq<bool>)
    requires n >= 1
    ensures |r| == Size(n)
  {
    LayerHalves0(n);
    Set(Repeat(true, Size(n)), n, n - 1, 0, false)
  }

  lemma LayerHalves0(n: nat)
    requires n >= 1
    ensures LayerLen(n, n - 1) == 1
  {
  }

  /** `count` calls of `alloc_bit(layer)` in a row: their results, oldest
      first, and the storage after the last. */
  function AllocMany(n: nat, bits: seq<bool>, layer: nat, count: nat): (r: (seq<Result<nat, AllocErr>>, seq<bool>))
    requires |bits| == Size(n)
    ensures |r.0| == count && |r.1| == |bits|
  {
    if count == 0 then ([], bits)
    else
      var before := AllocMany(n, bits, layer, count - 1);
      var o := AllocBitSpec(n, before.1, layer);
      (before.0 + [o.result], o.bits)
  }

  /** No layer below `layer` has a free bit. */
  ghost predicate NoFreeBelow(bits: seq<bool>, n: nat, layer: nat)
    requires |bits| == Size(n)
  {
    forall l: nat, j: nat :: l < layer && j < LayerLen(n, l) ==> Get(bits, n, l, j)
  }

  /** Free bits among the first `k` of a layer make `Zeros` positive, and
      only they do. */
  lemma {:induction false} ZerosPositive(bits: seq<bool>, n: nat, l: nat, k: nat)
    requires |bits| == Size(n) && k <= LayerLen(n, l)
    ensures Zeros(bits, n, l, k) > 0 <==> exists j: nat :: j < k && !Get(bits, n, l, j)
  {
    if k > 0 {
      ZerosPositive(bits, n, l, k - 1);
      if !Get(bits, n, l, k - 1) {
        assert Zeros(bits, n, l, k) > 0;
      } else if Zeros(bits, n, l, k) > 0 {
        var j: nat :| j < k - 1 && !Get(bits, n, l, j);
      }
    }
  }

  /** The free capacity of layers `l..n` is positive exactly when one of
      those layers has a free bit. */
  lemma {:induction false} FreeFromPositive(bits: seq<bool>, n: nat, l: nat)
    requires |bits| == Size(n)
    ensures FreeFrom(bits, n, l) > 0 <==> exists l': nat, j: nat :: l <= l' && j < LayerLen(n, l') && !Get(bits, n, l', j)
    decreases n - l
  {
    if l < n {
      var up := l + 1;
      FreeFromPositive(bits, n, up);
      ZerosPositive(bits, n, l, LayerLen(n, l));
      PositiveSum(Pow2(l), Zeros(bits, n, l, LayerLen(n, l)), FreeFrom(bits, n, up));
      FreeLayerSplit(bits, n, l, up);
    }
  }

  /** A free bit at layer `l` or above lies at `l` itself or at `l + 1` or
      above. */
  lemma FreeLayerSplit(bits: seq<bool>, n: nat, l: nat, up: nat)
    requires |bits| == Size(n) && up == l + 1
    ensures (exists l': nat, j: nat :: l <= l' && j < LayerLen(n, l') && !Get(bits, n, l', j))
      <==> ((exists j: nat :: j < LayerLen(n, l) && !Get(bits, n, l, j))
        || (exists l': nat, j: nat :: up <= l' && j < LayerLen(n, l') && !Get(bits, n, l', j)))
  {
    if exists l': nat, j: nat :: l <= l' && j < LayerLen(n, l') && !Get(bits, n, l', j) {
      var l': nat, j: nat :| l <= l' && j < LayerLen(n, l') && !Get(bits, n, l', j);
      if l' == l {
        assert j < LayerLen(n, l) && !Get(bits, n, l, j);
      }
    }
  }

  /** A weighted count plus a rest, all non-negative with a positive
      weight, is positive exactly when one of the two is. */
  lemma PositiveSum(p: int, z: int, rest: int)
    requires p >= 1 && z >= 0 && rest >= 0
    ensures p * z + rest > 0 <==> z > 0 || rest > 0
  {
    if z > 0 {
      MulMono(p, 1, z);
    }
  }

  /** With no free bit below `layer`, `alloc_bit(layer)` succeeds exactly
      when at least one page is free. */
  lemma {:induction false} AllocBitWhenFree(n: nat, bits: seq<bool>, layer: nat)
    requires |bits| == Size(n) && NoFreeBelow(bits, n, layer)
    ensures AllocBitSpec(n, bits, layer).result.Ok? <==> FreeUnits(bits, n) > 0
  {
    AllocBitOutcome(n, bits, layer);
    FreeFromPositive(bits, n, 0);
    if FreeUnits(bits, n) > 0 {
      var l: nat, j: nat :| 0 <= l && j < LayerLen(n, l) && !Get(bits, n, l, j);
      assert layer <= l;
    }
  }

  /** Starting from a disciplined bitmap with nothing free below `layer`
      and room for `count` blocks of that layer, `count` calls of
      `alloc_bit(layer)` all succeed, keep the discipline and use up
      exactly `count` blocks' worth of pages. */
  lemma {:induction false} AllocManySucceeds(n: nat, bits: seq<bool>, layer: nat, count: nat)
    requires Inv(bits, n) && NoFreeBelow(bits, n, layer)
    requires count * Pow2(layer) <= FreeUnits(bits, n)
    ensures var r := AllocMany(n, bits, layer, count);
      && (forall i :: 0 <= i < count ==> r.0[i].Ok?)
      && Inv(r.1, n) && NoFreeBelow(r.1, n, layer)
      && FreeUnits(r.1, n) + count * Pow2(layer) == FreeUnits(bits, n)
  {
    if count > 0 {
      AllocManySucceeds(n, bits, layer, count - 1);
      var before := AllocMany(n, bits, layer, count - 1);
      assert FreeUnits(before.1, n) >= Pow2(layer) by {
        assert count * Pow2(layer) == (count - 1) * Pow2(layer) + Pow2(layer);
      }
      AllocBitWhenFree(n, before.1, layer);
      AllocBitKeepsInv(n, before.1, layer);
      AllocBitOutcome(n, before.1, layer);
      var o := AllocBitSpec(n, before.1, layer);
      var r := AllocMany(n, bits, layer, count);
      assert r == (before.0 + [o.result], o.bits);
      assert count * Pow2(layer) == (count - 1) * Pow2(layer) + Pow2(layer);
    }
  }

  /** Every bit of a fully used storage is used, so its capacity is zero. */
  lemma {:induction false} AllUsedEmpty(n: nat)
    ensures FreeUnits(Repeat(true, Size(n)), n) == 0
  {
    var bits := Repeat(true, Size(n));
    FreeFromPositive(bits, n, 0);
    if FreeUnits(bits, n) > 0 {
      var l: nat, j: nat :| j < LayerLen(n, l) && !Get(bits, n, l, j);
      LayerInBounds(n, l);
    }
  }

  /** The test's starting state keeps the discipline, has nothing free
      below the top and holds 2^(n-1) pages. */
  lemma {:induction false} TopOnlyState(n: nat)
    requires n >= 1
    ensures Inv(TopOnly(n), n) && NoFreeBelow(TopOnly(n), n, n - 1)
    ensures FreeUnits(TopOnly(n), n) == Pow2(n - 1)
  {
    var all := Repeat(true, Size(n));
    var bits := TopOnly(n);
    SetFrame(all, n, n - 1, 0, false);
    forall l: nat, j: nat | j < LayerLen(n, l) && l != n - 1
      ensures Get(bits, n, l, j)
    {
      LayerInBounds(n, l);
    }
    forall l: nat, j: nat | j < LayerLen(n, l) && Covered(bits, n, l, j)
      ensures Get(bits, n, l, j)
    {
    }
    AllUsedEmpty(n);
    LayerInBounds(n, n - 1);
    FreeUnitsSet(all, n, n - 1, 0, false);
  }

  /** 2^a * 2^b == 2^(a+b). */
  lemma {:induction false} Pow2Add(a: nat, b: nat)
    ensures Pow2(a) * Pow2(b) == Pow2(a + b)
  {
    if a > 0 {
      Pow2Add(a - 1, b);
    }
  }

  /** The allocation rounds of `bbm_alloc_dealloc`, for any number of
      layers: from the state with only the top block free, 2^(n-1-L)
      calls of `alloc_bit(L)` all succeed, and one more reports
      `OutOfMemory { layer: L }`. */
  lemma {:induction false} TopOnlyYield(n: nat, layer: nat)
    requires layer < n
    ensures var r := AllocMany(n, TopOnly(n), layer, Pow2(n - 1 - layer));
      && (forall i :: 0 <= i < |r.0| ==> r.0[i].Ok?)
      && AllocBitSpec(n, r.1, layer).result == Err(OutOfMemory(layer))
  {
    var count := Pow2(n - 1 - layer);
    TopOnlyState(n);
    Pow2Add(n - 1 - layer, layer);
    assert NoFreeBelow(TopOnly(n), n, layer);
    AllocManySucceeds(n, TopOnly(n), layer, count);
    var r := AllocMany(n, TopOnly(n), layer, count);
    AllocBitWhenFree(n, r.1, layer);
    AllocBitOutcome(n, r.1, layer);
  }

  /** The index at layer `l2` reached from index `c` of layer `l` by
      halving once per layer, rounding up or down. */
  function Carry(l: nat, c: nat, l2: nat, up: bool): nat
    requires l <= l2
    decreases l2 - l
  {
    if l == l2 then c else Carry(l + 1, if up then (c + 1) / 2 else c / 2, l2, up)
  }

  /** The free bits after the first `c` blocks of layer `l` have been
      allocated from the start state: block `Carry` of each layer below
      the top when that index is odd (the right half a split left
      behind), and the top block only while nothing is allocated. */
  predicate AllocFree(n: nat, l: nat, c: nat, l2: nat, j: nat)
    requires l <= l2
  {
    var k := Carry(l, c, l2, true);
    if l2 + 1 == n then j == 0 && k == 0 else k % 2 == 1 && j == k
  }

  /** The free bits after the first `c` blocks of layer `l` have been
      freed from a fully used storage: block `Carry - 1` of each layer
      whose rounded-down index `Carry` is odd (the left part merging has
      not yet paired up). */
  predicate DeallocFree(l: nat, c: nat, l2: nat, j: nat)
    requires l <= l2
  {
    var k := Carry(l, c, l2, false);
    k % 2 == 1 && j + 1 == k
  }

  /** The layers from `l` up are used except where `AllocFree` says. */
  ghost predicate AllocState(bits: seq<bool>, n: nat, l: nat, c: nat)
    requires |bits| == Size(n)
  {
    forall l2: nat, j: nat :: l <= l2 && j < LayerLen(n, l2) ==> (Get(bits, n, l2, j) <==> !AllocFree(n, l, c, l2, j))
  }

  /** The layers from `l` up are used except where `DeallocFree` says. */
  ghost predicate DeallocState(bits: seq<bool>, n: nat, l: nat, c: nat)
    requires |bits| == Size(n)
  {
    forall l2: nat, j: nat :: l <= l2 && j < LayerLen(n, l2) ==> (Get(bits, n, l2, j) <==> !DeallocFree(l, c, l2, j))
  }

  /** With `c` blocks of layer `l` allocated in index order,
      `alloc_bit(l)` returns block `c` and leaves the state of `c + 1`
      blocks allocated; the layers below are untouched. */
  lemma {:induction false} AllocStep(n: nat, bits: seq<bool>, l: nat, c: nat)
    requires |bits| == Size(n) && c < LayerLen(n, l) && AllocState(bits, n, l, c)
    ensures var o := AllocBitSpec(n, bits, l);
      o.result == Ok(c) && AllocState(o.bits, n, l, c + 1) && Agree(bits, o.bits, n, 0, l)
    decreases n - l
  {
    if l + 1 == n || c % 2 == 1 {
      AllocHere(n, bits, l, c);
    } else {
      var up := l + 1;
      AllocSplitAbove(n, bits, l, c);
      AllocStep(n, bits, up, c / 2);
      var above := AllocBitSpec(n, bits, up);
      var first := FirstZeroFrom(bits, n, l, 0, LayerLen(n, l));
      assert first == None;
      var after := Set(above.bits, n, l, c + 1, false);
      assert AllocBitSpec(n, bits, l) == Outcome(Ok(c), after);
      AllocSplitAfter(n, bits, above.bits, l, c);
    }
  }

  /** The free block `c` of layer `l` is the first free bit there: it is
      taken, and only it changes. */
  lemma {:induction false} AllocHere(n: nat, bits: seq<bool>, l: nat, c: nat)
    requires |bits| == Size(n) && c < LayerLen(n, l) && AllocState(bits, n, l, c)
    requires l + 1 == n || c % 2 == 1
    ensures var o := AllocBitSpec(n, bits, l);
      o.result == Ok(c) && AllocState(o.bits, n, l, c + 1) && Agree(bits, o.bits, n, 0, l)
  {
    assert !Get(bits, n, l, c);
    var first := FirstZeroFrom(bits, n, l, 0, LayerLen(n, l));
    assert first == Some(c);
    var after := Set(bits, n, l, c, true);
    assert AllocBitSpec(n, bits, l) == Outcome(Ok(c), after);
    SetAgree(bits, n, l, c, true);
    forall l2: nat, j: nat | l <= l2 && j < LayerLen(n, l2)
      ensures Get(after, n, l2, j) <==> !AllocFree(n, l, c + 1, l2, j)
    {
      GetSet(bits, n, l, c, true, l2, j);
    }
  }

  /** With an even count below the top, the layers above are in the state
      of half as many blocks allocated there. */
  lemma {:induction false} AllocSplitAbove(n: nat, bits: seq<bool>, l: nat, c: nat)
    requires |bits| == Size(n) && c < LayerLen(n, l) && AllocState(bits, n, l, c)
    requires l + 1 < n && c % 2 == 0
    ensures c / 2 < LayerLen(n, l + 1) && AllocState(bits, n, l + 1, c / 2)
  {
    LayerHalves(n, l);
    forall l2: nat, j: nat | l + 1 <= l2 && j < LayerLen(n, l2)
      ensures Get(bits, n, l2, j) <==> !AllocFree(n, l + 1, c / 2, l2, j)
    {
      assert Carry(l, c, l2, true) == Carry(l + 1, c / 2, l2, true);
    }
  }

  /** Splitting the block allocated above into `c` and `c + 1`, with `c + 1`
      freed, gives the state of `c + 1` blocks allocated on layer `l`. */
  lemma {:induction false} AllocSplitAfter(n: nat, bits: seq<bool>, above: seq<bool>, l: nat, c: nat)
    requires |bits| == Size(n) && |above| == Size(n) && c < LayerLen(n, l) && l + 1 < n && c % 2 == 0
    requires AllocState(bits, n, l, c) && AllocState(above, n, l + 1, c / 2 + 1) && Agree(bits, above, n, 0, l + 1)
    ensures c + 1 < LayerLen(n, l)
    ensures AllocState(Set(above, n, l, c + 1, false), n, l, c + 1)
    ensures Agree(bits, Set(above, n, l, c + 1, false), n, 0, l)
  {
    LayerHalves(n, l);
    var after := Set(above, n, l, c + 1, false);
    SetAgree(above, n, l, c + 1, false);
    AgreeTrans(bits, above, after, n, 0, l);
    forall l2: nat, j: nat | l <= l2 && j < LayerLen(n, l2)
      ensures Get(after, n, l2, j) <==> !AllocFree(n, l, c + 1, l2, j)
    {
      GetSet(above, n, l, c + 1, false, l2, j);
      if l2 > l {
        assert Carry(l, c + 1, l2, true) == Carry(l + 1, c / 2 + 1, l2, true);
      }
    }
  }

  /** With the first `c` blocks of layer `l` freed in index order from a
      fully used storage, `dealloc_bit(c, l)` succeeds and leaves the state
      of `c + 1` blocks freed; the layers below are untouched. */
  lemma {:induction false} DeallocStep(n: nat, bits: seq<bool>, l: nat, c: nat)
    requires |bits| == Size(n) && c < LayerLen(n, l) && DeallocState(bits, n, l, c)
    ensures n >= 1
    ensures var o := DeallocBitSpec(n, bits, c, l);
      o.result == Ok(()) && DeallocState(o.bits, n, l, c + 1) && Agree(bits, o.bits, n, 0, l)
    decreases n - l
  {
    if l + 1 == n || c % 2 == 0 {
      DeallocHere(n, bits, l, c);
    } else {
      var up := l + 1;
      var merged := DeallocMerge(n, bits, l, c);
      DeallocStep(n, merged, up, c / 2);
      var after := DeallocBitSpec(n, merged, c / 2, up).bits;
      DeallocMergeAfter(n, bits, merged, after, l, c);
    }
  }

  /** At the top, or for an even index, the bit is cleared and nothing
      merges. */
  lemma {:induction false} DeallocHere(n: nat, bits: seq<bool>, l: nat, c: nat)
    requires |bits| == Size(n) && c < LayerLen(n, l) && DeallocState(bits, n, l, c)
    requires l + 1 == n || c % 2 == 0
    ensures n >= 1
    ensures var o := DeallocBitSpec(n, bits, c, l);
      o.result == Ok(()) && DeallocState(o.bits, n, l, c + 1) && Agree(bits, o.bits, n, 0, l)
  {
    assert Get(bits, n, l, c);
    var cleared := Set(bits, n, l, c, false);
    SetAgree(bits, n, l, c, false);
    if l + 1 == n {
      assert DeallocBitSpec(n, bits, c, l) == Outcome(Ok(()), cleared);
      forall l2: nat, j: nat | l <= l2 && j < LayerLen(n, l2)
        ensures Get(cleared, n, l2, j) <==> !DeallocFree(l, c + 1, l2, j)
      {
        GetSet(bits, n, l, c, false, l2, j);
      }
    } else {
      LayerHalves(n, l);
      GetSet(bits, n, l, c, false, l, c + 1);
      assert Get(bits, n, l, c + 1);
      assert DeallocBitSpec(n, bits, c, l) == Outcome(Ok(()), cleared);
      forall l2: nat, j: nat | l <= l2 && j < LayerLen(n, l2)
        ensures Get(cleared, n, l2, j) <==> !DeallocFree(l, c + 1, l2, j)
      {
        GetSet(bits, n, l, c, false, l2, j);
        if l2 > l {
          assert Carry(l, c + 1, l2, false) == Carry(l, c, l2, false);
        }
      }
    }
  }

  /** For an odd index below the top whose bit is used and whose buddy
      is free, `dealloc_bit` merges the two and goes on one layer up. */
  lemma {:induction false} DeallocUnfold(n: nat, bits: seq<bool>, l: nat, c: nat)
    requires |bits| == Size(n) && c < LayerLen(n, l) && l + 1 < n && c % 2 == 1
    requires Get(bits, n, l, c) && !Get(bits, n, l, c - 1)
    ensures var cleared := Set(bits, n, l, c, false);
      DeallocBitSpec(n, bits, c, l) ==
      DeallocBitSpec(n, Set(Set(cleared, n, l, c, true), n, l, c - 1, true), c / 2, l + 1)
  {
    LayerHalves(n, l);
    GetSet(bits, n, l, c, false, l, c - 1);
  }

  /** For an odd index below the top, the freed bit meets its free buddy:
      both are set used again and the walk goes on one layer up, where the
      layers are in the state of `c / 2` blocks freed. */
  lemma {:induction false} DeallocMerge(n: nat, bits: seq<bool>, l: nat, c: nat) returns (merged: seq<bool>)
    requires |bits| == Size(n) && c < LayerLen(n, l) && DeallocState(bits, n, l, c)
    requires l + 1 < n && c % 2 == 1
    ensures |merged| == Size(n) && c / 2 < LayerLen(n, l + 1)
    ensures DeallocBitSpec(n, bits, c, l) == DeallocBitSpec(n, merged, c / 2, l + 1)
    ensures DeallocState(merged, n, l + 1, c / 2) && Agree(bits, merged, n, 0, l)
    ensures forall j: nat :: j < LayerLen(n, l) ==> Get(merged, n, l, j)
  {
    LayerHalves(n, l);
    assert Get(bits, n, l, c) && !Get(bits, n, l, c - 1);
    DeallocUnfold(n, bits, l, c);
    var cleared := Set(bits, n, l, c, false);
    var restored := Set(cleared, n, l, c, true);
    merged := Set(restored, n, l, c - 1, true);
    SetAgree(bits, n, l, c, false);
    SetAgree(cleared, n, l, c, true);
    SetAgree(restored, n, l, c - 1, true);
    AgreeTrans(bits, cleared, restored, n, 0, l);
    AgreeTrans(bits, restored, merged, n, 0, l);
    DeallocMergeLayers(n, bits, l, c);
  }

  /** The bits of the merged storage: layer `l` fully used, the layers
      above in the state of `c / 2` blocks freed. */
  lemma {:induction false} DeallocMergeLayers(n: nat, bits: seq<bool>, l: nat, c: nat)
    requires |bits| == Size(n) && c < LayerLen(n, l) && DeallocState(bits, n, l, c)
    requires l + 1 < n && c % 2 == 1
    ensures var merged := Set(Set(Set(bits, n, l, c, false), n, l, c, true), n, l, c - 1, true);
      && DeallocState(merged, n, l + 1, c / 2)
      && forall j: nat :: j < LayerLen(n, l) ==> Get(merged, n, l, j)
  {
    LayerHalves(n, l);
    var cleared := Set(bits, n, l, c, false);
    var restored := Set(cleared, n, l, c, true);
    var merged := Set(restored, n, l, c - 1, true);
    forall l2: nat, j: nat | l <= l2 && j < LayerLen(n, l2)
      ensures l2 == l ==> Get(merged, n, l2, j)
      ensures l2 > l ==> (Get(merged, n, l2, j) <==> !DeallocFree(l + 1, c / 2, l2, j))
    {
      GetSet(bits, n, l, c, false, l2, j);
      GetSet(cleared, n, l, c, true, l2, j);
      GetSet(restored, n, l, c - 1, true, l2, j);
      if l2 > l {
        assert Carry(l, c, l2, false) == Carry(l + 1, c / 2, l2, false);
      }
    }
  }

  /** Once the walk above has merged, layer `l` is fully used and the
      layers above are in the state of `c + 1` blocks of layer `l` freed. */
  lemma {:induction false} DeallocMergeAfter(n: nat, bits: seq<bool>, merged: seq<bool>, after: seq<bool>, l: nat, c: nat)
    requires |bits| == Size(n) && |merged| == Size(n) && |after| == Size(n) && l + 1 < n && c % 2 == 1
    requires Agree(bits, merged, n, 0, l) && Agree(merged, after, n, 0, l + 1)
    requires forall j: nat :: j < LayerLen(n, l) ==> Get(merged, n, l, j)
    requires DeallocState(after, n, l + 1, c / 2 + 1)
    ensures DeallocState(after, n, l, c + 1) && Agree(bits, after, n, 0, l)
  {
    AgreeTrans(bits, merged, after, n, 0, l);
    forall l2: nat, j: nat | l <= l2 && j < LayerLen(n, l2)
      ensures Get(after, n, l2, j) <==> !DeallocFree(l, c + 1, l2, j)
    {
      if l2 > l {
        assert Carry(l, c + 1, l2, false) == Carry(l + 1, c / 2 + 1, l2, false);
      }
    }
  }

  /** `k` calls of `dealloc_bit(idx, layer)`, one per index of `idxs` in
      order: their results, oldest first, and the storage after the last. */
  function DeallocMany(n: nat, bits: seq<bool>, layer: nat, idxs: seq<nat>): (r: (seq<Result<(), AllocErr>>, seq<bool>))
    requires |bits| == Size(n) && n >= 1
    ensures |r.0| == |idxs| && |r.1| == |bits|
    decreases |idxs|
  {
    if idxs == [] then ([], bits)
    else
      var before := DeallocMany(n, bits, layer, idxs[..|idxs| - 1]);
      var o := DeallocBitSpec(n, before.1, idxs[|idxs| - 1], layer);
      (before.0 + [o.result], o.bits)
  }

  /** The indices `0, 1, .., k - 1`. */
  function Indices(k: nat): (r: seq<nat>)
    ensures |r| == k && forall i :: 0 <= i < k ==> r[i] == i
  {
    if k == 0 then [] else Indices(k - 1) + [k - 1]
  }

  /** The results `Ok(0), Ok(1), .., Ok(k - 1)`. */
  function OkIndices(k: nat): (r: seq<Result<nat, AllocErr>>)
    ensures |r| == k && forall i :: 0 <= i < k ==> r[i] == Ok(i)
  {
    if k == 0 then [] else OkIndices(k - 1) + [Ok(k - 1)]
  }

  /** Halving zero gives zero, rounding either way. */
  lemma {:induction false} CarryZero(l: nat, l2: nat, up: bool)
    requires l <= l2
    ensures Carry(l, 0, l2, up) == 0
    decreases l2 - l
  {
    if l < l2 {
      CarryZero(l + 1, l2, up);
    }
  }

  /** Halving the length of a layer gives the length of each layer
      above, rounding either way. */
  lemma {:induction false} CarryLayerLen(n: nat, l: nat, l2: nat, up: bool)
    requires l <= l2 < n
    ensures Carry(l, LayerLen(n, l), l2, up) == LayerLen(n, l2)
    decreases l2 - l
  {
    if l < l2 {
      LayerHalves(n, l);
      CarryLayerLen(n, l + 1, l2, up);
    }
  }

  /** The start state is the state of nothing allocated, at any layer. */
  lemma {:induction false} TopOnlyFree(n: nat, l: nat)
    requires l < n
    ensures AllocState(TopOnly(n), n, l, 0) && NoFreeBelow(TopOnly(n), n, l)
  {
    var all := Repeat(true, Size(n));
    SetFrame(all, n, n - 1, 0, false);
    forall l2: nat, j: nat | j < LayerLen(n, l2)
      ensures Get(TopOnly(n), n, l2, j) <==> !(l2 + 1 == n && j == 0)
    {
      LayerInBounds(n, l2);
    }
    forall l2: nat | l <= l2
      ensures Carry(l, 0, l2, true) == 0
    {
      CarryZero(l, l2, true);
    }
  }

  /** Every block of a layer allocated is every bit from that layer up
      used, which is nothing freed yet. */
  lemma {:induction false} AllAllocated(n: nat, bits: seq<bool>, l: nat)
    requires |bits| == Size(n) && l < n && AllocState(bits, n, l, LayerLen(n, l))
    ensures DeallocState(bits, n, l, 0)
  {
    forall l2: nat, j: nat | l <= l2 && j < LayerLen(n, l2)
      ensures Get(bits, n, l2, j)
    {
      CarryLayerLen(n, l, l2, true);
      if l2 + 1 < n {
        LayerHalves(n, l2);
      }
    }
    forall l2: nat | l <= l2
      ensures Carry(l, 0, l2, false) == 0
    {
      CarryZero(l, l2, false);
    }
  }

  /** Every block of a layer freed, with nothing free below, is the start
      state. */
  lemma {:induction false} AllFreed(n: nat, bits: seq<bool>, l: nat)
    requires |bits| == Size(n) && l < n && DeallocState(bits, n, l, LayerLen(n, l)) && NoFreeBelow(bits, n, l)
    ensures bits == TopOnly(n)
  {
    var all := Repeat(true, Size(n));
    SetFrame(all, n, n - 1, 0, false);
    forall l2: nat, j: nat | j < LayerLen(n, l2)
      ensures Get(bits, n, l2, j) == Get(TopOnly(n), n, l2, j)
    {
      LayerInBounds(n, l2);
      if l <= l2 {
        CarryLayerLen(n, l, l2, false);
        if l2 + 1 < n {
          LayerHalves(n, l2);
        }
      }
    }
    SameBits(n, bits, TopOnly(n));
  }

  /** Storages with the same bit in every layer are equal. */
  lemma {:induction false} SameBits(n: nat, a: seq<bool>, b: seq<bool>)
    requires |a| == Size(n) && |b| == Size(n)
    requires forall l: nat, j: nat :: j < LayerLen(n, l) ==> Get(a, n, l, j) == Get(b, n, l, j)
    ensures a == b
  {
    LayerStartClosed(n, n);
    forall p | 0 <= p < Size(n)
      ensures a[p] == b[p]
    {
      var l, j := Locate(n, p, 0);
      assert Get(a, n, l, j) == Get(b, n, l, j);
    }
  }

  /** The layer and index of storage position `p`, searching from layer
      `l` up. */
  lemma {:induction false} Locate(n: nat, p: nat, l: nat) returns (l2: nat, j: nat)
    requires l <= n && LayerStart(n, l) <= p < LayerStart(n, n)
    ensures j < LayerLen(n, l2) && LayerStart(n, l2) + j == p
    decreases n - l
  {
    if p < LayerStart(n, l + 1) {
      l2, j := l, p - LayerStart(n, l);
    } else {
      l2, j := Locate(n, p, l + 1);
    }
  }

  /** From the start state, the first `k` calls of `alloc_bit(l)` return
      blocks `0, 1, .., k - 1` in that order. */
  lemma {:induction false} AllocRound(n: nat, l: nat, k: nat)
    requires l < n && k <= LayerLen(n, l)
    ensures var r := AllocMany(n, TopOnly(n), l, k);
      r.0 == OkIndices(k) && AllocState(r.1, n, l, k) && NoFreeBelow(r.1, n, l)
  {
    if k == 0 {
      TopOnlyFree(n, l);
    } else {
      AllocRound(n, l, k - 1);
      var before := AllocMany(n, TopOnly(n), l, k - 1);
      AllocStep(n, before.1, l, k - 1);
    }
  }

  /** From a storage with the layers from `l` up all used and nothing free
      below, freeing blocks `0, 1, .., k - 1` of layer `l` in that order
      succeeds each time. */
  lemma {:induction false} DeallocRound(n: nat, bits: seq<bool>, l: nat, k: nat)
    requires |bits| == Size(n) && l < n && k <= LayerLen(n, l)
    requires DeallocState(bits, n, l, 0) && NoFreeBelow(bits, n, l)
    ensures var r := DeallocMany(n, bits, l, Indices(k));
      && (forall i :: 0 <= i < k ==> r.0[i] == Ok(()))
      && DeallocState(r.1, n, l, k) && NoFreeBelow(r.1, n, l)
  {
    if k > 0 {
      DeallocRound(n, bits, l, k - 1);
      assert Indices(k)[..k - 1] == Indices(k - 1);
      var before := DeallocMany(n, bits, l, Indices(k - 1));
      DeallocStep(n, before.1, l, k - 1);
    }
  }

  /** One round of `bbm_alloc_dealloc` for layer `l`, with any number of
      layers: from the start state, `alloc_bit(l)` hands out blocks `0, 1,
      .., 2^(n-1-l) - 1` in that order and then reports `OutOfMemory`;
      `dealloc_bit` of those blocks, in the same order, succeeds each
      time and gives back the start state, so the next round starts from
      it too. */
  lemma {:induction false} TopOnlyRound(n: nat, l: nat)
    requires l < n
    ensures var count := Pow2(n - 1 - l);
      var a := AllocMany(n, TopOnly(n), l, count);
      var d := DeallocMany(n, a.1, l, Indices(count));
      && a.0 == OkIndices(count)
      && AllocBitSpec(n, a.1, l).result == Err(OutOfMemory(l))
      && (forall i :: 0 <= i < count ==> d.0[i] == Ok(()))
      && d.1 == TopOnly(n)
  {
    var count := LayerLen(n, l);
    AllocRound(n, l, count);
    TopOnlyYield(n, l);
    var a := AllocMany(n, TopOnly(n), l, count);
    AllAllocated(n, a.1, l);
    DeallocRound(n, a.1, l, count);
    AllFreed(n, DeallocMany(n, a.1, l, Indices(count)).1, l);
  }
}
