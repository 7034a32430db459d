/** The freestanding C library's memory routines (`libc/string/`). Memory
    is one byte array; pointers are indices into it. The loop counters are
    `unsigned int`, so every routine requires `len` below 2^32 (a longer
    length would wrap the counter). */
module LibcString {
  import opened Base

  const UINT_LIMIT: int := 0x1_0000_0000

  /** `memcpy(dst, src, len)`: the two ranges must not overlap
      (`__restrict`). */
  method Memcpy(mem: array<u8>, dst: nat, src: nat, len: nat) returns (r: nat)
    requires len < UINT_LIMIT
    requires dst + len <= mem.Length && src + len <= mem.Length
    requires dst + len <= src || src + len <= dst
    modifies mem
    ensures r == dst
    ensures mem[dst..dst + len] == old(mem[src..src + len])
    ensures forall j :: 0 <= j < mem.Length && !(dst <= j < dst + len) ==> mem[j] == old(mem[j])
  {
    var i := 0;
    while i < len
      invariant i <= len
      invariant forall j :: dst <= j < dst + i ==> mem[j] == old(mem[j - dst + src])
      invariant forall j :: 0 <= j < mem.Length && !(dst <= j < dst + i) ==> mem[j] == old(mem[j])
    {
      mem[dst + i] := mem[src + i];
      i := i + 1;
    }
    r := dst;
  }

  /** `memmove(dst, src, len)`: correct for overlapping ranges, because it
      copies upwards when `dst < src` and downwards otherwise; `order`
      lists the written addresses in the order of the writes. */
  method Memmove(mem: array<u8>, dst: nat, src: nat, len: nat) returns (r: nat, ghost order: seq<nat>)
    requires len < UINT_LIMIT
    requires dst + len <= mem.Length && src + len <= mem.Length
    modifies mem
    ensures r == dst
    ensures mem[dst..dst + len] == old(mem[src..src + len])
    ensures forall j :: 0 <= j < mem.Length && !(dst <= j < dst + len) ==> mem[j] == old(mem[j])
    ensures |order| == len
    ensures forall k :: 0 <= k < len ==> order[k] == if dst < src then dst + k else dst + len - 1 - k
  {
    order := [];
    if dst < src {
      var i := 0;
      while i < len
        invariant i <= len
        invariant forall j :: dst <= j < dst + i ==> mem[j] == old(mem[j - dst + src])
        invariant forall j :: 0 <= j < mem.Length && !(dst <= j < dst + i) ==> mem[j] == old(mem[j])
        invariant |order| == i && forall k :: 0 <= k < i ==> order[k] == dst + k
      {
        mem[dst + i] := mem[src + i];
        order := order + [dst + i];
        i := i + 1;
      }
    } else {
      var i := len;
      while i > 0
        invariant 0 <= i <= len
        invariant forall j :: dst + i <= j < dst + len ==> mem[j] == old(mem[j - dst + src])
        invariant forall j :: 0 <= j < mem.Length && !(dst + i <= j < dst + len) ==> mem[j] == old(mem[j])
        invariant |order| == len - i && forall k :: 0 <= k < len - i ==> order[k] == dst + len - 1 - k
      {
        mem[dst + i - 1] := mem[src + i - 1];
        order := order + [dst + i - 1];
        i := i - 1;
      }
    }
    r := dst;
  }

  /** The answer `memcmp` gives for two equally long byte strings: the
      first differing byte decides, compared unsigned. */
  function Compare(x: seq<u8>, y: seq<u8>): int
    requires |x| == |y|
  {
    if x == [] then 0
    else if x[0] > y[0] then 1
    else if x[0] < y[0] then -1
    else Compare(x[1..], y[1..])
  }

  /** `Compare` is 0 exactly on equal strings, otherwise the sign of the
      first difference, and swapping the arguments negates it. */
  lemma {:induction false} CompareMeaning(x: seq<u8>, y: seq<u8>)
    requires |x| == |y|
    ensures Compare(x, y) in {-1, 0, 1}
    ensures Compare(x, y) == 0 <==> x == y
    ensures Compare(x, y) != 0 ==>
      exists j :: 0 <= j < |x| && x[..j] == y[..j] && x[j] != y[j] && (Compare(x, y) == 1 <==> x[j] > y[j])
    ensures Compare(y, x) == -Compare(x, y)
  {
    if x != [] && x[0] == y[0] {
      CompareMeaning(x[1..], y[1..]);
      if Compare(x, y) != 0 {
        var j :| 0 <= j < |x| - 1 && x[1..][..j] == y[1..][..j] && x[1..][j] != y[1..][j]
          && (Compare(x[1..], y[1..]) == 1 <==> x[1..][j] > y[1..][j]);
        assert x[..j + 1] == [x[0]] + x[1..][..j];
        assert y[..j + 1] == [y[0]] + y[1..][..j];
      }
      if x[1..] == y[1..] {
        assert x == [x[0]] + x[1..] && y == [y[0]] + y[1..];
      }
    } else if x != [] {
      assert x[..0] == y[..0];
    }
  }

  /** `memcmp(a, b, len)`; it writes nothing. */
  method Memcmp(mem: array<u8>, a: nat, b: nat, len: nat) returns (r: int)
    requires len < UINT_LIMIT
    requires a + len <= mem.Length && b + len <= mem.Length
    ensures r == Compare(mem[a..a + len], mem[b..b + len])
  {
    var i := 0;
    while i < len
      invariant i <= len
      invariant Compare(mem[a..a + len], mem[b..b + len]) == Compare(mem[a + i..a + len], mem[b + i..b + len])
    {
      assert mem[a + i..a + len][1..] == mem[a + i + 1..a + len];
      assert mem[b + i..b + len][1..] == mem[b + i + 1..b + len];
      if mem[a + i] > mem[b + i] {
        return 1;
      } else if mem[a + i] < mem[b + i] {
        return -1;
      }
      i := i + 1;
    }
    r := 0;
  }

  /** `memset(ptr, v, len)`: each byte becomes `(unsigned char)v`, that is
      `v` modulo 256. */
  method Memset(mem: array<u8>, ptr: nat, v: int, len: nat) returns (r: nat)
    requires len < UINT_LIMIT
    requires ptr + len <= mem.Length
    modifies mem
    ensures r == ptr
    ensures forall k :: ptr <= k < ptr + len ==> mem[k] == v % 0x100
    ensures forall j :: 0 <= j < mem.Length && !(ptr <= j < ptr + len) ==> mem[j] == old(mem[j])
  {
    var i := 0;
    while i < len
      invariant i <= len
      invariant forall k :: ptr <= k < ptr + i ==> mem[k] == v % 0x100
      invariant forall j :: 0 <= j < mem.Length && !(ptr <= j < ptr + i) ==> mem[j] == old(mem[j])
    {
      mem[ptr + i] := v % 0x100;
      i := i + 1;
    }
    r := ptr;
  }
}
