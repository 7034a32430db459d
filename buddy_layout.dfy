/** The storage layout of `BuddyBitmap` in
    `kernel/src/arch/x86_64/memory/frame_allocator/buddy.rs`: with `n`
    layers, layer 0 has 2^(n-1) bits, each higher layer half as many, the
    top layer one bit, all stored back to back in 2^n - 1 bits. A bit is
    `true` (1) when the block is not available at that size and `false` (0)
    when it is free. This module gives the bit-level vocabulary the
    operations are specified in. */
module BuddyLayout {
  import opened Base

  function Pow2(k: nat): (r: nat)
    ensures r >= 1
  {
    if k == 0 then 1 else 2 * Pow2(k - 1)
  }

  /** Number of bits in layer `l` (zero for a layer that does not exist). */
  function LayerLen(n: nat, l: nat): nat
  {
    if l < n then Pow2(n - 1 - l) else 0
  }

  /** Position of the first bit of layer `l`: the lengths of the layers
      below it, added up. */
  function LayerStart(n: nat, l: nat): nat
  {
    if l == 0 then 0 else LayerStart(n, l - 1) + LayerLen(n, l - 1)
  }

  /** `bits_required_for_n_layers`: (1 << n) - 1. */
  function Size(n: nat): nat
  {
    Pow2(n) - 1
  }

  /** `bytes_required_for_n_layers`: the bytes that hold the 2^n - 1 bits,
      rounded up to whole bytes. */
  function BytesRequired(n: nat): (r: nat)
    ensures 8 * r >= Size(n) && 8 * r < Size(n) + 8
  {
    NextMultipleOf(Size(n), 8) / 8
  }

  /** Below the top, a layer has twice the bits of the layer above it. */
  lemma LayerHalves(n: nat, l: nat)
    requires l + 1 < n
    ensures LayerLen(n, l) == 2 * LayerLen(n, l + 1)
  {
  }

  /** Closed form of the start of layer `l`: 2^n - 2^(n-l). */
  lemma {:induction false} LayerStartClosed(n: nat, l: nat)
    requires l <= n
    ensures LayerStart(n, l) + Pow2(n - l) == Pow2(n)
  {
    if l > 0 {
      LayerStartClosed(n, l - 1);
      assert Pow2(n - (l - 1)) == 2 * Pow2(n - l);
    }
  }

  /** Past the top layer the start stays at the end of the storage. */
  lemma {:induction false} LayerStartBeyond(n: nat, l: nat)
    requires n <= l
    ensures LayerStart(n, l) == Size(n)
  {
    if l == n {
      LayerStartClosed(n, n);
    } else {
      LayerStartBeyond(n, l - 1);
    }
  }

  /** Every layer lies inside the 2^n - 1 bits of storage. */
  lemma LayerInBounds(n: nat, l: nat)
    ensures LayerStart(n, l) + LayerLen(n, l) <= Size(n)
  {
    if l < n {
      LayerStartClosed(n, l);
      assert Pow2(n - l) == 2 * Pow2(n - 1 - l);
    } else {
      LayerStartBeyond(n, l);
    }
  }

  /** Layers are stored in order and do not overlap. */
  lemma {:induction false} LayersOrdered(n: nat, l1: nat, l2: nat)
    requires l1 < l2
    ensures LayerStart(n, l1) + LayerLen(n, l1) <= LayerStart(n, l2)
  {
    if l1 < l2 - 1 {
      LayersOrdered(n, l1, l2 - 1);
    }
  }

  /** The layer ranges of a five-layer bitmap: 0..16, 16..24, 24..28,
      28..30 and 30..31. */
  lemma FiveLayers()
    ensures LayerStart(5, 0) == 0 && LayerLen(5, 0) == 16
    ensures LayerStart(5, 1) == 16 && LayerLen(5, 1) == 8
    ensures LayerStart(5, 2) == 24 && LayerLen(5, 2) == 4
    ensures LayerStart(5, 3) == 28 && LayerLen(5, 3) == 2
    ensures LayerStart(5, 4) == 30 && LayerLen(5, 4) == 1
    ensures Size(5) == 31
  {
    assert Pow2(4) == 16 && Pow2(5) == 32;
  }

  /** Bit `j` of layer `l`. */
  function Get(bits: seq<bool>, n: nat, l: nat, j: nat): bool
    requires |bits| == Size(n) && j < LayerLen(n, l)
  {
    LayerInBounds(n, l);
    bits[LayerStart(n, l) + j]
  }

  /** The storage with bit `j` of layer `l` set to `v`. */
  function Set(bits: seq<bool>, n: nat, l: nat, j: nat, v: bool): (r: seq<bool>)
    requires |bits| == Size(n) && j < LayerLen(n, l)
    ensures |r| == |bits|
  {
    LayerInBounds(n, l);
    bits[LayerStart(n, l) + j := v]
  }

  /** Setting one bit changes that bit and no other bit of any layer. */
  lemma GetSet(bits: seq<bool>, n: nat, l: nat, j: nat, v: bool, l': nat, k: nat)
    requires |bits| == Size(n) && j < LayerLen(n, l) && k < LayerLen(n, l')
    ensures Get(Set(bits, n, l, j, v), n, l', k) == if l' == l && k == j then v else Get(bits, n, l', k)
  {
    LayerInBounds(n, l);
    LayerInBounds(n, l');
    var p, q := LayerStart(n, l) + j, LayerStart(n, l') + k;
    if l' < l {
      LayersOrdered(n, l', l);
    } else if l < l' {
      LayersOrdered(n, l, l');
    }
    assert (l' == l && k == j) <==> p == q;
  }

  /** `GetSet` for every bit at once. */
  lemma SetFrame(bits: seq<bool>, n: nat, l: nat, j: nat, v: bool)
    requires |bits| == Size(n) && j < LayerLen(n, l)
    ensures forall l': nat, k: nat :: k < LayerLen(n, l') ==>
      Get(Set(bits, n, l, j, v), n, l', k) == if l' == l && k == j then v else Get(bits, n, l', k)
  {
    forall l': nat, k: nat | k < LayerLen(n, l')
      ensures Get(Set(bits, n, l, j, v), n, l', k) == if l' == l && k == j then v else Get(bits, n, l', k)
    {
      GetSet(bits, n, l, j, v, l', k);
    }
  }

  /** The two storages agree on every bit of the layers in `lo..hi`. */
  ghost predicate Agree(a: seq<bool>, b: seq<bool>, n: nat, lo: nat, hi: nat)
    requires |a| == Size(n) && |b| == Size(n)
  {
    forall l: nat, k: nat :: lo <= l < hi && k < LayerLen(n, l) ==> Get(a, n, l, k) == Get(b, n, l, k)
  }

  /** Setting a bit of layer `l` leaves every other layer as it was. */
  lemma SetAgree(bits: seq<bool>, n: nat, l: nat, j: nat, v: bool)
    requires |bits| == Size(n) && j < LayerLen(n, l)
    ensures Agree(bits, Set(bits, n, l, j, v), n, 0, l)
    ensures Agree(bits, Set(bits, n, l, j, v), n, l + 1, n)
  {
    SetFrame(bits, n, l, j, v);
  }

  /** The position of the first free bit of layer `l` in `j..e`. */
  function FirstZeroFrom(bits: seq<bool>, n: nat, l: nat, j: nat, e: nat): (r: Option<nat>)
    requires |bits| == Size(n) && j <= e <= LayerLen(n, l)
    ensures r.Some? ==>
      j <= r.value < e && !Get(bits, n, l, r.value) && forall k :: j <= k < r.value ==> Get(bits, n, l, k)
    ensures r.None? ==> forall k :: j <= k < e ==> Get(bits, n, l, k)
    decreases e - j
  {
    if j == e then None
    else if !Get(bits, n, l, j) then Some(j)
    else FirstZeroFrom(bits, n, l, j + 1, e)
  }

  /** Free bits of layer `l` among positions `0..k`. */
  function Zeros(bits: seq<bool>, n: nat, l: nat, k: nat): nat
    requires |bits| == Size(n) && k <= LayerLen(n, l)
  {
    if k == 0 then 0 else Zeros(bits, n, l, k - 1) + (if Get(bits, n, l, k - 1) then 0 else 1)
  }

  /** Free capacity of layers `l..n`, in layer-0 blocks: a free bit of
      layer `l` stands for 2^l pages. */
  function FreeFrom(bits: seq<bool>, n: nat, l: nat): nat
    requires |bits| == Size(n)
    decreases n - l
  {
    if l >= n then 0 else Pow2(l) * Zeros(bits, n, l, LayerLen(n, l)) + FreeFrom(bits, n, l + 1)
  }

  /** The free capacity of the whole bitmap, in pages. */
  function FreeUnits(bits: seq<bool>, n: nat): nat
    requires |bits| == Size(n)
  {
    FreeFrom(bits, n, 0)
  }

  /** +1 when a used bit becomes free, -1 when a free bit becomes used. */
  function Delta(was: bool, now: bool): int
  {
    (if now then 0 else 1) - (if was then 0 else 1)
  }

  lemma {:induction false} ZerosSet(bits: seq<bool>, n: nat, l: nat, j: nat, v: bool, l': nat, k: nat)
    requires |bits| == Size(n) && j < LayerLen(n, l) && k <= LayerLen(n, l')
    ensures Zeros(Set(bits, n, l, j, v), n, l', k)
      == Zeros(bits, n, l', k) + (if l' == l && j < k then Delta(Get(bits, n, l, j), v) else 0)
  {
    if k > 0 {
      ZerosSet(bits, n, l, j, v, l', k - 1);
      GetSet(bits, n, l, j, v, l', k - 1);
    }
  }

  lemma {:induction false} FreeFromSet(bits: seq<bool>, n: nat, l: nat, j: nat, v: bool, from: nat)
    requires |bits| == Size(n) && j < LayerLen(n, l)
    ensures FreeFrom(Set(bits, n, l, j, v), n, from)
      == FreeFrom(bits, n, from) + (if from <= l < n then Pow2(l) * Delta(Get(bits, n, l, j), v) else 0)
    decreases n - from
  {
    var b' := Set(bits, n, l, j, v);
    var w := Pow2(l) * Delta(Get(bits, n, l, j), v);
    if from < n {
      FreeFromSet(bits, n, l, j, v, from + 1);
      var z, z' := Zeros(bits, n, from, LayerLen(n, from)), Zeros(b', n, from, LayerLen(n, from));
      ZerosSet(bits, n, l, j, v, from, LayerLen(n, from));
      assert FreeFrom(b', n, from) == Pow2(from) * z' + FreeFrom(b', n, from + 1);
      assert FreeFrom(bits, n, from) == Pow2(from) * z + FreeFrom(bits, n, from + 1);
      if from == l {
        MulAdd(Pow2(l), z, Delta(Get(bits, n, l, j), v));
      } else {
        assert z' == z;
      }
    }
  }

  /** Freeing a used bit of layer `l` adds 2^l pages of capacity; using a
      free one removes them. */
  lemma FreeUnitsSet(bits: seq<bool>, n: nat, l: nat, j: nat, v: bool)
    requires |bits| == Size(n) && j < LayerLen(n, l)
    ensures FreeUnits(Set(bits, n, l, j, v), n) == FreeUnits(bits, n) + Pow2(l) * Delta(Get(bits, n, l, j), v)
  {
    FreeFromSet(bits, n, l, j, v, 0);
  }

  /** Some ancestor of bit `j` of layer `l` is free: the block lies inside
      a larger free block. */
  ghost predicate Covered(bits: seq<bool>, n: nat, l: nat, j: nat)
    requires |bits| == Size(n) && j < LayerLen(n, l)
    decreases n - l
  {
    l + 1 < n && (!Get(bits, n, l + 1, j / 2) || Covered(bits, n, l + 1, j / 2))
  }

  /** A block that can be handed out: free itself, or inside a free block. */
  ghost predicate Available(bits: seq<bool>, n: nat, l: nat, j: nat)
    requires |bits| == Size(n) && j < LayerLen(n, l)
  {
    !Get(bits, n, l, j) || Covered(bits, n, l, j)
  }

  /** The buddy discipline: no free block lies inside a free block, so the
      free blocks are disjoint and `FreeUnits` is the free memory. */
  ghost predicate Inv(bits: seq<bool>, n: nat)
  {
    |bits| == Size(n)
    && forall l: nat, j: nat :: j < LayerLen(n, l) && Covered(bits, n, l, j) ==> Get(bits, n, l, j)
  }

  /** Every block below bit `j` of layer `l` is marked used. */
  ghost predicate DescUsed(bits: seq<bool>, n: nat, l: nat, j: nat)
    requires |bits| == Size(n) && j < LayerLen(n, l)
    decreases l
  {
    l == 0 || (l < n &&
      Get(bits, n, l - 1, 2 * j) && Get(bits, n, l - 1, 2 * j + 1)
      && DescUsed(bits, n, l - 1, 2 * j) && DescUsed(bits, n, l - 1, 2 * j + 1))
  }

  /** A block that is handed out: used, not inside a free block, and with
      nothing free below it. */
  ghost predicate Allocated(bits: seq<bool>, n: nat, l: nat, j: nat)
    requires |bits| == Size(n) && j < LayerLen(n, l)
  {
    Get(bits, n, l, j) && !Covered(bits, n, l, j) && DescUsed(bits, n, l, j)
  }

  /** Whether a block is covered depends only on the layers above it. */
  lemma {:induction false} CoveredAgree(a: seq<bool>, b: seq<bool>, n: nat, l: nat, j: nat)
    requires |a| == Size(n) && |b| == Size(n) && j < LayerLen(n, l)
    requires Agree(a, b, n, l + 1, n)
    ensures Covered(a, n, l, j) == Covered(b, n, l, j)
    decreases n - l
  {
    if l + 1 < n {
      CoveredAgree(a, b, n, l + 1, j / 2);
    }
  }

  /** Whether everything below a block is used depends only on the layers
      below it. */
  lemma {:induction false} DescUsedAgree(a: seq<bool>, b: seq<bool>, n: nat, l: nat, j: nat)
    requires |a| == Size(n) && |b| == Size(n) && j < LayerLen(n, l)
    requires Agree(a, b, n, 0, l)
    ensures DescUsed(a, n, l, j) == DescUsed(b, n, l, j)
    decreases l
  {
    if 0 < l < n {
      LayerHalves(n, l - 1);
      DescUsedAgree(a, b, n, l - 1, 2 * j);
      DescUsedAgree(a, b, n, l - 1, 2 * j + 1);
    }
  }

  /** Under the discipline, everything below an available block is used. */
  lemma {:induction false} AvailableDescUsed(bits: seq<bool>, n: nat, l: nat, j: nat)
    requires Inv(bits, n) && j < LayerLen(n, l) && Available(bits, n, l, j)
    ensures DescUsed(bits, n, l, j)
    decreases l
  {
    if 0 < l < n {
      LayerHalves(n, l - 1);
      assert (2 * j) / 2 == j && (2 * j + 1) / 2 == j;
      assert Covered(bits, n, l - 1, 2 * j) && Covered(bits, n, l - 1, 2 * j + 1);
      AvailableDescUsed(bits, n, l - 1, 2 * j);
      AvailableDescUsed(bits, n, l - 1, 2 * j + 1);
    }
  }

  /** Under the discipline a free bit is never covered. */
  lemma FreeNotCovered(bits: seq<bool>, n: nat, l: nat, j: nat)
    requires Inv(bits, n) && j < LayerLen(n, l) && !Get(bits, n, l, j)
    ensures !Covered(bits, n, l, j)
  {
  }

  /** Marking a block used cannot uncover anything free: the discipline
      survives. */
  lemma {:induction false} CoveredAfterUse(bits: seq<bool>, n: nat, l: nat, j: nat, l': nat, k: nat)
    requires |bits| == Size(n) && j < LayerLen(n, l) && k < LayerLen(n, l')
    requires Covered(Set(bits, n, l, j, true), n, l', k)
    ensures Covered(bits, n, l', k)
    decreases n - l'
  {
    var b' := Set(bits, n, l, j, true);
    GetSet(bits, n, l, j, true, l' + 1, k / 2);
    if Covered(b', n, l' + 1, k / 2) {
      CoveredAfterUse(bits, n, l, j, l' + 1, k / 2);
    }
  }

  lemma UsePreservesInv(bits: seq<bool>, n: nat, l: nat, j: nat)
    requires Inv(bits, n) && j < LayerLen(n, l)
    ensures Inv(Set(bits, n, l, j, true), n)
  {
    var b' := Set(bits, n, l, j, true);
    forall l': nat, k: nat | k < LayerLen(n, l') && Covered(b', n, l', k)
      ensures Get(b', n, l', k)
    {
      CoveredAfterUse(bits, n, l, j, l', k);
      GetSet(bits, n, l, j, true, l', k);
    }
  }

  /** The ancestor at layer `top` of bit `k` of layer `l`. */
  function Ancestor(l: nat, k: nat, top: nat): nat
    requires l <= top
    decreases top - l
  {
    if l == top then k else Ancestor(l + 1, k / 2, top)
  }

  lemma {:induction false} AncestorStep(l: nat, k: nat, top: nat)
    requires l < top
    ensures Ancestor(l, k, top) == Ancestor(l, k, top - 1) / 2
    decreases top - l
  {
    if l + 1 < top {
      AncestorStep(l + 1, k / 2, top);
    }
  }

  lemma {:induction false} AncestorInLayer(n: nat, l: nat, k: nat, top: nat)
    requires l <= top < n && k < LayerLen(n, l)
    ensures Ancestor(l, k, top) < LayerLen(n, top)
    decreases top - l
  {
    if l < top {
      LayerHalves(n, l);
      AncestorInLayer(n, l + 1, k / 2, top);
    }
  }

  /** Everything below a block whose descendants are all used is used. */
  lemma {:induction false} DescUsedGet(bits: seq<bool>, n: nat, top: nat, j: nat, l: nat, k: nat)
    requires |bits| == Size(n) && j < LayerLen(n, top) && k < LayerLen(n, l)
    requires DescUsed(bits, n, top, j) && l < top < n && Ancestor(l, k, top) == j
    ensures Get(bits, n, l, k)
    decreases top - l
  {
    AncestorStep(l, k, top);
    var c := Ancestor(l, k, top - 1);
    AncestorInLayer(n, l, k, top - 1);
    assert c == 2 * j || c == 2 * j + 1;
    if l < top - 1 {
      DescUsedGet(bits, n, top - 1, c, l, k);
    }
  }

  /** After freeing bit `j` of layer `top`, a covered block was covered
      before or lies below that bit. */
  lemma {:induction false} CoveredAfterFree(bits: seq<bool>, n: nat, top: nat, j: nat, l: nat, k: nat)
    requires |bits| == Size(n) && j < LayerLen(n, top) && k < LayerLen(n, l)
    requires Covered(Set(bits, n, top, j, false), n, l, k)
    ensures Covered(bits, n, l, k) || (l < top && Ancestor(l, k, top) == j)
    decreases n - l
  {
    var b' := Set(bits, n, top, j, false);
    GetSet(bits, n, top, j, false, l + 1, k / 2);
    if !Get(b', n, l + 1, k / 2) {
      if l + 1 == top && k / 2 == j {
      }
    } else {
      CoveredAfterFree(bits, n, top, j, l + 1, k / 2);
      if l + 1 < top && Ancestor(l + 1, k / 2, top) == j {
      }
    }
  }

  /** Freeing an uncovered block with nothing free below it keeps the
      discipline. */
  lemma FreePreservesInv(bits: seq<bool>, n: nat, l: nat, j: nat)
    requires Inv(bits, n) && j < LayerLen(n, l) && l < n
    requires !Covered(bits, n, l, j) && DescUsed(bits, n, l, j)
    ensures Inv(Set(bits, n, l, j, false), n)
  {
    var b' := Set(bits, n, l, j, false);
    forall l': nat, k: nat | k < LayerLen(n, l') && Covered(b', n, l', k)
      ensures Get(b', n, l', k)
    {
      CoveredAfterFree(bits, n, l, j, l', k);
      GetSet(bits, n, l, j, false, l', k);
      if !Covered(bits, n, l', k) {
        DescUsedGet(bits, n, l, j, l', k);
      }
    }
  }
}
