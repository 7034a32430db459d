/** `BuddyBitmap` of `kernel/src/arch/x86_64/memory/frame_allocator/buddy.rs`
    as a class over its bit storage. Every operation works on the storage
    in place and is proved to leave exactly the storage, and return exactly
    the result, that its specification function in `BuddyOps` gives for
    the storage before the call; what those functions promise is proved in
    `BuddyOps`, `BuddyDiscipline` and `BuddyExhaustion`. */
module BuddyBitmaps {
  import opened Base
  import opened BuddyLayout
  import opened BuddyOps

  /** Past the top the layer length halves down to zero; below it each
      layer is half the one beneath. */
  lemma LayerLenShift(n: nat, l: nat)
    ensures LayerLen(n, l + 1) == LayerLen(n, l) / 2
  {
    if l + 1 < n {
      LayerHalves(n, l);
    }
  }

  /** Writing a bit's own value back changes nothing. */
  lemma SetSame(bits: seq<bool>, n: nat, l: nat, j: nat)
    requires |bits| == Size(n) && j < LayerLen(n, l)
    ensures Set(bits, n, l, j, Get(bits, n, l, j)) == bits
  {
    LayerInBounds(n, l);
  }

  /** The exits of `dealloc_range` after the range was found all used:
      an error from either edge is returned as is. */
  lemma DeallocRangeExits(n: nat, bits: seq<bool>, s: nat, e: nat, layer: nat)
    requires |bits| == Size(n) && n >= 1 && layer < n && s <= e <= LayerLen(n, layer)
    requires FirstZeroFrom(bits, n, layer, s, e).None?
    ensures var first := StartEdge(n, bits, s, layer);
      first.result.Err? ==> DeallocRangeSpec(n, bits, s, e, layer) == Returns(Outcome(Err(first.result.error), first.bits))
    ensures var first := StartEdge(n, bits, s, layer);
      var second := EndEdge(n, first.bits, e, layer);
      first.result.Ok? && second.result.Err? ==>
        DeallocRangeSpec(n, bits, s, e, layer) == Returns(Outcome(Err(second.result.error), second.bits))
  {
  }

  class BuddyBitmap {
    /** Number of layers; layer 0 has 2^(numLayers-1) bits. */
    var numLayers: nat
    /** The layers back to back, lowest first; `true` means used. */
    var storage: array<bool>

    ghost predicate Valid()
      reads this
    {
      numLayers >= 1 && storage.Length == Size(numLayers)
    }

    /** The bits of the storage. */
    function Bits(): (r: seq<bool>)
      reads this, storage
      requires Valid()
      ensures |r| == Size(numLayers)
    {
      storage[..]
    }

    constructor Wrap(numLayers: nat, storage: array<bool>)
      requires numLayers >= 1 && storage.Length == Size(numLayers)
      ensures this.numLayers == numLayers && this.storage == storage && Valid()
    {
      this.numLayers := numLayers;
      this.storage := storage;
    }

    /** `BuddyBitmap::new`: panics unless the storage holds exactly
      2^n - 1 bits; otherwise marks every bit used. */
    static method New(numLayers: nat, storage: array<bool>) returns (r: Run<BuddyBitmap>)
      requires numLayers >= 1
      modifies storage
      ensures r.Returns? <==> storage.Length == Size(numLayers)
      ensures r.Panics? ==> unchanged(storage)
      ensures r.Returns? ==>
        && fresh(r.value) && r.value.Valid()
        && r.value.numLayers == numLayers && r.value.storage == storage
        && storage[..] == Repeat(true, Size(numLayers))
    {
      if storage.Length != Size(numLayers) {
        return Panics("`storage` must be exactly 2^n - 1 bits long.");
      }
      var i := 0;
      while i < storage.Length
        invariant 0 <= i <= storage.Length
        invariant forall k :: 0 <= k < i ==> storage[k]
      {
        storage[i] := true;
        i := i + 1;
      }
      var b := new BuddyBitmap.Wrap(numLayers, storage);
      r := Returns(b);
    }

    /** `layer_range`: walks up from layer 0, adding each layer's length
      to the start and halving it. */
    method LayerRange(layer: nat) returns (r: Range)
      requires Valid()
      ensures r == Range(LayerStart(numLayers, layer), LayerStart(numLayers, layer) + LayerLen(numLayers, layer))
      ensures r.end <= storage.Length
    {
      var len := Pow2(numLayers - 1);
      var start := 0;
      var l: nat := layer;
      while l > 0
        invariant l <= layer
        invariant start == LayerStart(numLayers, layer - l)
        invariant len == LayerLen(numLayers, layer - l)
      {
        LayerLenShift(numLayers, layer - l);
        assert LayerStart(numLayers, layer - l + 1) == start + len;
        start := start + len;
        l := l - 1;
        len := len / 2;
      }
      r := Range(start, start + len);
      LayerInBounds(numLayers, layer);
    }

    /** Reads bit `j` of a layer. */
    method GetBit(layer: nat, j: nat) returns (b: bool)
      requires Valid() && j < LayerLen(numLayers, layer)
      ensures b == Get(Bits(), numLayers, layer, j)
    {
      var range := LayerRange(layer);
      b := storage[range.start + j];
    }

    /** `replace` on bit `j` of a layer: stores `v` and returns the bit's
      old value. */
    method ReplaceBit(layer: nat, j: nat, v: bool) returns (was: bool)
      requires Valid() && j < LayerLen(numLayers, layer)
      modifies storage
      ensures was == Get(old(Bits()), numLayers, layer, j)
      ensures Bits() == Set(old(Bits()), numLayers, layer, j, v)
    {
      var range := LayerRange(layer);
      was := storage[range.start + j];
      storage[range.start + j] := v;
    }

    /** `first_zero` on bits `s..e` of a layer, as an offset from the
      layer's start. */
    method FirstZero(layer: nat, s: nat, e: nat) returns (r: Option<nat>)
      requires Valid() && s <= e <= LayerLen(numLayers, layer)
      ensures r == FirstZeroFrom(Bits(), numLayers, layer, s, e)
    {
      var range := LayerRange(layer);
      var j := s;
      while j < e
        invariant s <= j <= e
        invariant FirstZeroFrom(Bits(), numLayers, layer, s, e) == FirstZeroFrom(Bits(), numLayers, layer, j, e)
      {
        if !storage[range.start + j] {
          return Some(j);
        }
        j := j + 1;
      }
      return None;
    }

    /** `alloc_bit(layer)`. */
    method AllocBit(layer: nat) returns (r: Result<nat, AllocErr>)
      requires Valid()
      modifies storage
      ensures var o := AllocBitSpec(numLayers, old(Bits()), layer); r == o.result && Bits() == o.bits
      decreases numLayers - layer
    {
      if layer >= numLayers {
        return Err(LayerDoesNotExist(layer));
      }
      var z := FirstZero(layer, 0, LayerLen(numLayers, layer));
      if z.Some? {
        var _ := ReplaceBit(layer, z.value, true);
        return Ok(z.value);
      }
      var above := AllocBit(layer + 1);
      match above
      case Err(e) =>
        r := Err(if e.LayerDoesNotExist? || e.OutOfMemory? then OutOfMemory(layer) else e);
      case Ok(a) =>
        LayerHalves(numLayers, layer);
        var _ := ReplaceBit(layer, 2 * a + 1, false);
        r := Ok(2 * a);
    }

    /** `dealloc_bit(idx, layer)`. */
    method DeallocBit(idx: nat, layer: nat) returns (r: Result<(), AllocErr>)
      requires Valid()
      modifies storage
      ensures var o := DeallocBitSpec(numLayers, old(Bits()), idx, layer); r == o.result && Bits() == o.bits
      decreases numLayers - layer
    {
      var pair := idx - idx % 2;
      if layer == numLayers - 1 {
        var was := ReplaceBit(layer, 0, false);
        if !was {
          SetSame(old(Bits()), numLayers, layer, 0);
          return Err(DoubleFree(idx, layer));
        }
        return Ok(());
      }
      if pair + 2 > LayerLen(numLayers, layer) {
        return Err(IdxOutOfRange(idx, layer));
      }
      var buddy := pair + (idx + 1) % 2;
      var was := ReplaceBit(layer, idx, false);
      if !was {
        SetSame(old(Bits()), numLayers, layer, idx);
        return Err(DoubleFree(idx, layer));
      }
      var buddyUsed := GetBit(layer, buddy);
      if layer + 1 < numLayers && !buddyUsed {
        ghost var b0 := old(Bits());
        var up, half := layer + 1, idx / 2;
        DeallocBitMergeStep(numLayers, b0, idx, layer, up, half);
        var _ := ReplaceBit(layer, idx, true);
        SetBack(b0, numLayers, layer, idx);
        var _ := ReplaceBit(layer, buddy, true);
        r := DeallocBit(half, up);
      } else {
        r := Ok(());
      }
    }

    /** Frees the unpaired bit at the start of a range (odd `s`). */
    method FreeStartEdge(s: nat, layer: nat) returns (r: Result<(), AllocErr>)
      requires Valid()
      modifies storage
      ensures var o := StartEdge(numLayers, old(Bits()), s, layer); r == o.result && Bits() == o.bits
    {
      if s % 2 == 1 {
        r := DeallocBit(s, layer);
      } else {
        r := Ok(());
      }
    }

    /** Frees the unpaired bit at the end of a range (odd `e`). */
    method FreeEndEdge(e: nat, layer: nat) returns (r: Result<(), AllocErr>)
      requires Valid()
      modifies storage
      ensures var o := EndEdge(numLayers, old(Bits()), e, layer); r == o.result && Bits() == o.bits
    {
      if e % 2 == 1 {
        r := DeallocBit(e - 1, layer);
      } else {
        r := Ok(());
      }
    }

    /** `dealloc_range(s..e, layer)`; slicing the layer outside its bounds
      panics. */
    method DeallocRange(s: nat, e: nat, layer: nat) returns (r: Run<Result<(), AllocErr>>)
      requires Valid()
      modifies storage
      ensures var o := DeallocRangeSpec(numLayers, old(Bits()), s, e, layer);
        && (o.Panics? ==> r == Panics(o.reason))
        && (o.Returns? ==> r == Returns(o.value.result) && Bits() == o.value.bits)
      decreases numLayers - layer
    {
      if layer >= numLayers {
        return Returns(Err(LayerDoesNotExist(layer)));
      }
      var range := LayerRange(layer);
      if !(s <= e <= range.end - range.start) {
        return Panics("range end index out of range for slice");
      }
      var z := FirstZero(layer, s, e);
      if z.Some? {
        return Returns(Err(DoubleFree(z.value - s, layer)));
      }
      ghost var b0 := Bits();
      DeallocRangeExits(numLayers, b0, s, e, layer);
      var first := FreeStartEdge(s, layer);
      if first.Err? {
        return Returns(Err(first.error));
      }
      var second := FreeEndEdge(e, layer);
      if second.Err? {
        return Returns(Err(second.error));
      }
      var up := layer + 1;
      DeallocRangeStep(numLayers, b0, s, e, layer, up);
      if AboveStart(s) < AboveEnd(e) {
        r := DeallocRange(AboveStart(s), AboveEnd(e), up);
      } else {
        r := Returns(Ok(()));
      }
    }

    /** `alloc_range(len, layer)`. */
    method AllocRange(len: nat, layer: nat) returns (r: Run<Result<Range, AllocErr>>)
      requires Valid()
      modifies storage
      ensures var o := AllocRangeSpec(numLayers, old(Bits()), len, layer);
        && (o.Panics? ==> r == Panics(o.reason))
        && (o.Returns? ==> r == Returns(o.value.result) && Bits() == o.value.bits)
      decreases numLayers - layer
    {
      if layer >= numLayers {
        return Returns(Err(LayerDoesNotExist(layer)));
      }
      if len == 0 {
        return Returns(Ok(Range(0, 0)));
      } else if len == 1 {
        var idx := AllocBit(layer);
        if idx.Err? {
          return Returns(Err(idx.error));
        }
        return Returns(Ok(Range(idx.value, idx.value + 1)));
      }
      ghost var b0 := Bits();
      var aboveLen := NextMultipleOf(len, 2) / 2;
      assert aboveLen == (len + len % 2) / 2;
      var up := layer + 1;
      AllocRangeStep(numLayers, b0, len, layer, up, aboveLen);
      var above := AllocRange(aboveLen, up);
      if above.Panics? {
        return Panics(above.reason);
      }
      if above.value.Err? {
        return Returns(Err(above.value.error));
      }
      r := Trim(above.value.value, len, layer);
    }

    /** The tail of `alloc_range`: keeps the first `len` halves of the
      parents `above` and frees the rest. */
    method Trim(above: Range, len: nat, layer: nat) returns (r: Run<Result<Range, AllocErr>>)
      requires Valid()
      modifies storage
      ensures var o := TrimSurplus(numLayers, old(Bits()), above, len, layer);
        && (o.Panics? ==> r == Panics(o.reason))
        && (o.Returns? ==> r == Returns(o.value.result) && Bits() == o.value.bits)
    {
      var start, end := 2 * above.start, 2 * above.end;
      var freed := DeallocRange(start + len, end, layer);
      if freed.Panics? {
        return Panics(freed.reason);
      }
      if freed.value.Err? {
        return Returns(Err(freed.value.error));
      }
      return Returns(Ok(Range(start, start + len)));
    }
  }
}
