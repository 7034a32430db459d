/** The initrd archive reader of `kernel/src/file/ustar.rs`: entries in
    the ustar interchange format of POSIX.1-2017 (pax), with the GNU magic
    "ustar  \0". A header is 512 bytes; its fields are at the offsets
    below; numbers are NUL-terminated octal text. */
module Ustar {
  import opened Base

  const HEADER_LEN: nat := 512
  const U32_LIMIT: nat := 0x1_0000_0000

  /** Field offsets of `RawUstarHeader`. */
  const NAME_END: nat := 100
  const SIZE_START: nat := 124
  const SIZE_END: nat := 136
  const CHECKSUM_START: nat := 148
  const CHECKSUM_END: nat := 156
  const TYPE_AT: nat := 156
  const MAGIC_START: nat := 257
  const MAGIC_END: nat := 265

  /** The GNU magic the reader insists on. */
  const MAGIC: seq<u8> := [0x75, 0x73, 0x74, 0x61, 0x72, 0x20, 0x20, 0x00]

  /** The magic field holds MAGIC, compared byte by byte. */
  predicate HasMagic(s: seq<u8>)
    requires |s| >= MAGIC_END
  {
    && s[MAGIC_START] == MAGIC[0] && s[MAGIC_START + 1] == MAGIC[1]
    && s[MAGIC_START + 2] == MAGIC[2] && s[MAGIC_START + 3] == MAGIC[3]
    && s[MAGIC_START + 4] == MAGIC[4] && s[MAGIC_START + 5] == MAGIC[5]
    && s[MAGIC_START + 6] == MAGIC[6] && s[MAGIC_START + 7] == MAGIC[7]
  }

  lemma {:induction false} HasMagicSlice(s: seq<u8>)
    requires |s| >= MAGIC_END
    ensures HasMagic(s) <==> s[MAGIC_START..MAGIC_END] == MAGIC
  {
    var m := s[MAGIC_START..MAGIC_END];
    assert forall i :: 0 <= i < 8 ==> m[i] == s[MAGIC_START + i];
    if HasMagic(s) {
      assert m == MAGIC;
    }
  }

  /** `UstarFormatError`. */
  datatype UstarFormatError =
    | InvalidMagic
    | InvalidChecksum(stored: u32, computed: u32)
    | InvalidType
    | UnexpectedNonOctalChar
    | SliceTooSmall

  /** `UstarFile`: the 512 header bytes and the entry's data. */
  datatype UstarFile = UstarFile(header: seq<u8>, data: seq<u8>)

  /** The bytes of `s` before its first NUL (all of `s` without one). */
  function NulPrefix(s: seq<u8>): (r: seq<u8>)
    ensures |r| <= |s| && r == s[..|r|] && 0 !in r
    ensures |r| < |s| ==> s[|r|] == 0
  {
    if s == [] || s[0] == 0 then [] else [s[0]] + NulPrefix(s[1..])
  }

  predicate IsOctalDigit(b: u8)
  {
    0x30 <= b <= 0x37
  }

  /** Every byte of `s` is an octal digit. */
  predicate AllOctal(s: seq<u8>)
  {
    s == [] || (AllOctal(s[..|s| - 1]) && IsOctalDigit(s[|s| - 1]))
  }

  lemma {:induction false} AllOctalIff(s: seq<u8>)
    ensures AllOctal(s) <==> forall i :: 0 <= i < |s| ==> IsOctalDigit(s[i])
  {
    if s != [] {
      var init := s[..|s| - 1];
      AllOctalIff(init);
      assert forall i :: 0 <= i < |init| ==> init[i] == s[i];
    }
  }

  /** The number a string of octal digits denotes. */
  function OctalValue(s: seq<u8>): nat
    requires AllOctal(s)
  {
    if s == [] then 0 else OctalValue(s[..|s| - 1]) * 8 + (s[|s| - 1] - 0x30)
  }

  /** The digits before the first NUL read left to right into `acc`, or
      `UnexpectedNonOctalChar` at the first byte that is not a digit. */
  function OctAcc(s: seq<u8>, acc: nat): Result<nat, UstarFormatError>
    decreases |s|
  {
    if s == [] || s[0] == 0 then Ok(acc)
    else if IsOctalDigit(s[0]) then OctAcc(s[1..], acc * 8 + (s[0] - 0x30))
    else Err(UnexpectedNonOctalChar)
  }

  /** What `oct_to_u32` computes: the accumulated digits, truncated to a
      `u32` (the shift drops the bits above 32). */
  function OctToU32Spec(oct: seq<u8>): Result<u32, UstarFormatError>
  {
    match OctAcc(oct, 0)
    case Err(e) => Err(e)
    case Ok(v) => Ok(v % U32_LIMIT)
  }

  /** A string with a leading byte is all octal exactly when that byte
      and the rest are. */
  lemma {:induction false} AllOctalCons(d: u8, q: seq<u8>)
    ensures AllOctal([d] + q) <==> IsOctalDigit(d) && AllOctal(q)
  {
    var s := [d] + q;
    AllOctalIff(s);
    AllOctalIff(q);
    assert s[0] == d;
    assert forall i :: 0 <= i < |q| ==> s[i + 1] == q[i];
    assert forall j :: 1 <= j < |s| ==> s[j] == q[j - 1];
  }

  /** A leading digit contributes its value times 8 to the power of the
      digits after it. */
  lemma {:induction false} OctalCons(d: u8, q: seq<u8>)
    requires IsOctalDigit(d) && AllOctal(q)
    ensures AllOctal([d] + q)
    ensures OctalValue([d] + q) == (d - 0x30) * Pow8(|q|) + OctalValue(q)
  {
    var s := [d] + q;
    AllOctalCons(d, q);
    if q == [] {
      assert s[..0] == [];
    } else {
      var init := q[..|q| - 1];
      assert s[..|s| - 1] == [d] + init;
      assert s[|s| - 1] == q[|q| - 1];
      OctalCons(d, init);
      var a: int := d - 0x30;
      var p := Pow8(|init|);
      var last: int := q[|q| - 1] - 0x30;
      var v := OctalValue([d] + init);
      assert OctalValue(s) == v * 8 + last;
      assert OctalValue(q) == OctalValue(init) * 8 + last;
      assert v == a * p + OctalValue(init);
      MulAdd(8, a * p, OctalValue(init));
      assert v * 8 == a * (8 * p) + OctalValue(init) * 8;
    }
  }

  /** The accumulator reads exactly the digits before the first NUL. */
  lemma {:induction false} OctAccMeaning(s: seq<u8>, acc: nat)
    ensures var p := NulPrefix(s);
      OctAcc(s, acc) == if AllOctal(p) then Ok(acc * Pow8(|p|) + OctalValue(p)) else Err(UnexpectedNonOctalChar)
    decreases |s|
  {
    if s != [] && s[0] != 0 {
      var d := s[0];
      var q := NulPrefix(s[1..]);
      assert NulPrefix(s) == [d] + q;
      AllOctalCons(d, q);
      if IsOctalDigit(d) && AllOctal(q) {
        OctalCons(d, q);
      }
      if IsOctalDigit(d) {
        var a: int := d - 0x30;
        OctAccMeaning(s[1..], acc * 8 + a);
        var p := Pow8(|q|);
        assert (acc * 8 + a) * p == acc * (8 * p) + a * p;
      }
    }
  }

  /** `oct_to_u32` in words: the octal digits before the first NUL (all
      of the field without one), truncated to a `u32`; refused when a byte
      before that NUL is not an octal digit. */
  lemma {:induction false} OctToU32Meaning(oct: seq<u8>)
    ensures var p := NulPrefix(oct);
      OctToU32Spec(oct) == if AllOctal(p) then Ok(OctalValue(p) % U32_LIMIT) else Err(UnexpectedNonOctalChar)
  {
    OctAccMeaning(oct, 0);
  }

  /** One step of the accumulator: shifting the truncated value left by
      three and or-ing in a digit is the truncation of the exact step. */
  lemma {:induction false} ShiftOrStep(a: nat, d: nat)
    requires d < 8
    ensures ((a % U32_LIMIT) * 8 % U32_LIMIT) + d == (a * 8 + d) % U32_LIMIT
  {
    var q := a / U32_LIMIT;
    assert a * 8 == (a % U32_LIMIT) * 8 + U32_LIMIT * (8 * q);
    ModAddMul((a % U32_LIMIT) * 8, U32_LIMIT, 8 * q);
    var m := (a % U32_LIMIT) * 8;
    assert m % 8 == 0;
    var h := m / U32_LIMIT;
    assert m == U32_LIMIT * h + m % U32_LIMIT;
    assert (m % U32_LIMIT) % 8 == 0;
    assert (m % U32_LIMIT) + d < U32_LIMIT;
    ModAddMul((m % U32_LIMIT) + d, U32_LIMIT, h);
    assert a * 8 + d == (m % U32_LIMIT) + d + U32_LIMIT * (h + 8 * q);
    ModAddMul((m % U32_LIMIT) + d, U32_LIMIT, h + 8 * q);
  }

  /** `oct_to_u32`: the accumulator loop over the field. */
  method OctToU32(oct: seq<u8>) returns (r: Result<u32, UstarFormatError>)
    ensures r == OctToU32Spec(oct)
  {
    var n: u32 := 0;
    var i := 0;
    while i < |oct|
      invariant i <= |oct| && 0 !in oct[..i]
      invariant AllOctal(oct[..i])
      invariant n == OctalValue(oct[..i]) % U32_LIMIT
    {
      var d := oct[i];
      if d == 0 {
        break;
      } else if 0x30 <= d <= 0x37 {
        assert oct[..i + 1][..i] == oct[..i];
        ShiftOrStep(OctalValue(oct[..i]), d % 8);
        n := (n * 8) % U32_LIMIT;
        n := n + d % 8;
      } else {
        NulPrefixStop(oct, i + 1);
        OctalPrefixStop(NulPrefix(oct), i);
        OctToU32Meaning(oct);
        return Err(UnexpectedNonOctalChar);
      }
      i := i + 1;
    }
    NulPrefixStop(oct, i);
    OctToU32Meaning(oct);
    r := Ok(n);
  }

  /** The NUL prefix of a field holding no NUL among its first `i` bytes
      starts with those bytes, and is exactly them when byte `i` is NUL or
      the field ends there. */
  lemma {:induction false} NulPrefixStop(s: seq<u8>, i: nat)
    requires i <= |s| && 0 !in s[..i]
    ensures |NulPrefix(s)| >= i && NulPrefix(s)[..i] == s[..i]
    ensures (i == |s| || s[i] == 0) ==> NulPrefix(s) == s[..i]
  {
    if i > 0 {
      assert s[0] == s[..i][0];
      assert 0 !in s[1..][..i - 1] by {
        assert s[1..][..i - 1] == s[..i][1..];
      }
      NulPrefixStop(s[1..], i - 1);
    }
  }

  /** `w` octal digits of `n`, leading zeros included. */
  function OctalFixed(n: nat, w: nat): (r: seq<u8>)
    ensures |r| == w && AllOctal(r)
  {
    if w == 0 then [] else
      var r := OctalFixed(n / 8, w - 1) + [0x30 + n % 8];
      assert r[..w - 1] == OctalFixed(n / 8, w - 1);
      r
  }

  function Pow8(w: nat): (r: nat)
    ensures r >= 1
  {
    if w == 0 then 1 else 8 * Pow8(w - 1)
  }

  /** Reading back `w` digits gives the number, if it fits in `w` digits. */
  lemma {:induction false} OctalFixedValue(n: nat, w: nat)
    requires n < Pow8(w)
    ensures OctalValue(OctalFixed(n, w)) == n
  {
    if w > 0 {
      OctalFixedValue(n / 8, w - 1);
      var s := OctalFixed(n, w);
      assert s[..|s| - 1] == OctalFixed(n / 8, w - 1);
    }
  }

  /** A field holding octal digits and then a NUL parses to their value. */
  lemma {:induction false} OctFieldRoundTrip(n: nat, w: nat, rest: seq<u8>)
    requires n < Pow8(w) && n < U32_LIMIT
    ensures OctToU32Spec(OctalFixed(n, w) + [0] + rest) == Ok(n)
  {
    var d := OctalFixed(n, w);
    var s := d + [0] + rest;
    assert s[..w] == d && s[w] == 0;
    AllOctalIff(d);
    NulPrefixStop(s, w);
    OctToU32Meaning(s);
    assert NulPrefix(s) == d;
    OctalFixedValue(n, w);
    assert OctalValue(d) % U32_LIMIT == n;
  }

  /** The checksum `read_raw` computes over the first `k` bytes: bytes
      148..156 count as spaces. */
  function HeaderSum(s: seq<u8>, k: nat): nat
    requires k <= |s|
  {
    if k == 0 then 0
    else HeaderSum(s, k - 1) + (if CHECKSUM_START <= k - 1 < CHECKSUM_END then 0x20 else s[k - 1])
  }

  /** The sum does not depend on the stored checksum field. */
  lemma {:induction false} HeaderSumIgnoresField(a: seq<u8>, b: seq<u8>, k: nat)
    requires k <= |a| && k <= |b|
    requires forall i :: 0 <= i < k && !(CHECKSUM_START <= i < CHECKSUM_END) ==> a[i] == b[i]
    ensures HeaderSum(a, k) == HeaderSum(b, k)
  {
    if k > 0 {
      HeaderSumIgnoresField(a, b, k - 1);
    }
  }

  /** Each byte adds at most 255. */
  lemma {:induction false} HeaderSumBound(s: seq<u8>, k: nat)
    requires k <= |s|
    ensures HeaderSum(s, k) <= 255 * k
  {
    if k > 0 {
      HeaderSumBound(s, k - 1);
    }
  }

  /** `read_raw`: the checks in the code's order (length, magic, type,
      checksum, size); on success the data is the `size` bytes after the
      header, and the slice must extend strictly beyond them. */
  function ReadRaw(slice: seq<u8>): (r: Result<UstarFile, UstarFormatError>)
    ensures r.Ok? ==>
      && |slice| >= HEADER_LEN && |r.value.header| == HEADER_LEN && r.value.header == slice[..HEADER_LEN]
      && OctToU32Spec(slice[SIZE_START..SIZE_END]) == Ok(|r.value.data|)
      && HEADER_LEN + |r.value.data| < |slice|
      && r.value.data == slice[HEADER_LEN..HEADER_LEN + |r.value.data|]
  {
    if |slice| < HEADER_LEN then Err(SliceTooSmall)
    else if !HasMagic(slice) then Err(InvalidMagic)
    else if slice[TYPE_AT] != 0 && !(0x30 <= slice[TYPE_AT] <= 0x36) then Err(InvalidType)
    else match OctToU32Spec(slice[CHECKSUM_START..CHECKSUM_END])
      case Err(e) => Err(e)
      case Ok(checksum) =>
        HeaderSumBound(slice, HEADER_LEN);
        var sum := HeaderSum(slice, HEADER_LEN);
        if checksum != sum then Err(InvalidChecksum(checksum, sum))
        else match OctToU32Spec(slice[SIZE_START..SIZE_END])
          case Err(e) => Err(e)
          case Ok(size) =>
            if HEADER_LEN + size >= |slice| then Err(SliceTooSmall)
            else Ok(UstarFile(slice[..HEADER_LEN], slice[HEADER_LEN..HEADER_LEN + size]))
  }

  /** `file_name`: the name field up to its first NUL, or all 100 bytes. */
  function FileName(f: UstarFile): (r: seq<u8>)
    requires |f.header| == HEADER_LEN
  {
    NulPrefix(f.header[..NAME_END])
  }

  /** `is_directory`. */
  predicate IsDirectory(f: UstarFile)
    requires |f.header| == HEADER_LEN
  {
    f.header[TYPE_AT] == 0x35
  }

  /** `is_file`. */
  predicate IsFile(f: UstarFile)
    requires |f.header| == HEADER_LEN
  {
    f.header[TYPE_AT] == 0x30 || f.header[TYPE_AT] == 0
  }

  /** Bytes after an entry's data up to the next 512-byte boundary. */
  function Padding(size: nat): (r: nat)
    ensures (HEADER_LEN + size + r) % HEADER_LEN == 0 && r < HEADER_LEN
  {
    var offset := HEADER_LEN + size;
    if offset % HEADER_LEN > 0 then HEADER_LEN - offset % HEADER_LEN else 0
  }

  /** `get_all_entries`: reads entries until `read_raw` fails, skipping
      each entry's header, data and padding; slicing past the end panics. */
  function AllEntries(data: seq<u8>): (r: Run<seq<UstarFile>>)
    decreases |data|
  {
    match ReadRaw(data)
    case Err(_) => Returns([])
    case Ok(f) =>
      var skip := HEADER_LEN + |f.data| + Padding(|f.data|);
      if skip > |data| then Panics("range start index out of range for slice")
      else Prepend(f, AllEntries(data[skip..]))
  }

  function Prepend(f: UstarFile, r: Run<seq<UstarFile>>): Run<seq<UstarFile>>
  {
    if r.Panics? then r else Returns([f] + r.value)
  }

  function PrependAll(v: seq<UstarFile>, r: Run<seq<UstarFile>>): Run<seq<UstarFile>>
  {
    if r.Panics? then r else Returns(v + r.value)
  }

  /** One turn of the walk: a parsed entry followed by the walk of what
      comes after its padding. */
  lemma {:induction false} AllEntriesStep(data: seq<u8>)
    ensures ReadRaw(data).Err? ==> AllEntries(data) == Returns([])
    ensures ReadRaw(data).Ok? ==>
      var f := ReadRaw(data).value;
      var skip := HEADER_LEN + |f.data| + Padding(|f.data|);
      && (skip > |data| ==> AllEntries(data) == Panics("range start index out of range for slice"))
      && (skip <= |data| ==> AllEntries(data) == Prepend(f, AllEntries(data[skip..])))
  {
  }

  lemma {:induction false} PrependAllStep(v: seq<UstarFile>, f: UstarFile, r: Run<seq<UstarFile>>)
    ensures PrependAll(v, Prepend(f, r)) == PrependAll(v + [f], r)
  {
    if r.Returns? {
      assert v + ([f] + r.value) == (v + [f]) + r.value;
    }
  }

  /** The loop invariant of `get_all_entries` survives one parsed entry. */
  lemma {:induction false} WalkStep(archive: seq<u8>, v: seq<UstarFile>, data: seq<u8>, f: UstarFile, next: seq<u8>)
    requires AllEntries(archive) == PrependAll(v, AllEntries(data))
    requires ReadRaw(data) == Ok(f)
    requires HEADER_LEN + |f.data| + Padding(|f.data|) <= |data|
    requires next == data[HEADER_LEN + |f.data| + Padding(|f.data|)..]
    ensures AllEntries(archive) == PrependAll(v + [f], AllEntries(next))
  {
    AllEntriesCons(data, f, next);
    PrependAllStep(v, f, AllEntries(next));
  }

  /** `get_all_entries` as the loop the source runs. */
  method GetAllEntries(archive: seq<u8>) returns (r: Run<seq<UstarFile>>)
    ensures r == AllEntries(archive)
  {
    var data := archive;
    var v: seq<UstarFile> := [];
    var all := AllEntries(archive);
    if all.Returns? {
      assert [] + all.value == all.value;
    }
    while true
      invariant AllEntries(archive) == PrependAll(v, AllEntries(data))
      decreases |data|
    {
      var parsed := ReadRaw(data);
      if parsed.Err? {
        assert AllEntries(data) == Returns([]) by { AllEntriesStep(data); }
        assert v + [] == v;
        return Returns(v);
      }
      var ustar := parsed.value;
      var offset := HEADER_LEN + |ustar.data|;
      var padding := Padding(|ustar.data|);
      if offset + padding > |data| {
        assert AllEntries(data) == Panics("range start index out of range for slice") by { AllEntriesStep(data); }
        return Panics("range start index out of range for slice");
      }
      var next := data[offset + padding..];
      WalkStep(archive, v, data, ustar, next);
      data := next;
      v := v + [ustar];
    }
  }

  /** A file to put in an archive: a name without NUL of at most 100
      bytes, a valid type byte and its data. */
  datatype Entry = Entry(name: seq<u8>, typ: u8, data: seq<u8>)

  predicate ValidEntry(e: Entry)
  {
    |e.name| <= NAME_END && 0 !in e.name
    && (e.typ == 0 || 0x30 <= e.typ <= 0x36)
    && |e.data| < U32_LIMIT
  }

  /** The header fields before the checksum: name, mode/uid/gid (zeros),
      size in 11 octal digits and a NUL, mtime (zeros). */
  function HeaderBefore(e: Entry): (r: seq<u8>)
    requires ValidEntry(e)
    ensures |r| == CHECKSUM_START
  {
    e.name + Repeat(0, NAME_END - |e.name|) + Repeat(0, 24) + OctalFixed(|e.data|, 11) + [0] + Repeat(0, 12)
  }

  /** The header fields after the checksum: type, link name, magic, and
      zeros up to 512 bytes. */
  function HeaderAfter(e: Entry): (r: seq<u8>)
    ensures |r| == HEADER_LEN - CHECKSUM_END
  {
    [e.typ] + Repeat(0, 100) + MAGIC + Repeat(0, 247)
  }

  /** The header a writer produces: the checksum field holds the sum in
      six octal digits, a NUL and a space. */
  function MakeHeader(e: Entry): (r: seq<u8>)
    requires ValidEntry(e)
    ensures |r| == HEADER_LEN
  {
    var blank := HeaderBefore(e) + Repeat(0x20, 8) + HeaderAfter(e);
    HeaderBefore(e) + OctalFixed(HeaderSum(blank, HEADER_LEN), 6) + [0, 0x20] + HeaderAfter(e)
  }

  /** A header `read_raw` accepts for `n` data bytes: the GNU magic, a
      known type, a checksum field holding the header's own sum and a
      size field holding `n`. */
  predicate ValidHeader(h: seq<u8>, n: nat)
  {
    && |h| == HEADER_LEN && HasMagic(h)
    && (h[TYPE_AT] == 0 || 0x30 <= h[TYPE_AT] <= 0x36)
    && OctToU32Spec(h[CHECKSUM_START..CHECKSUM_END]).Ok?
    && OctToU32Spec(h[CHECKSUM_START..CHECKSUM_END]).value as nat == HeaderSum(h, HEADER_LEN)
    && OctToU32Spec(h[SIZE_START..SIZE_END]).Ok?
    && OctToU32Spec(h[SIZE_START..SIZE_END]).value as nat == n
  }

  /** Where the name and the size sit in the fields before the checksum. */
  lemma {:induction false} HeaderBeforeFields(e: Entry)
    requires ValidEntry(e)
    ensures var b := HeaderBefore(e);
      && b[..NAME_END] == e.name + Repeat(0, NAME_END - |e.name|)
      && b[SIZE_START..SIZE_END] == OctalFixed(|e.data|, 11) + [0] + []
  {
    var name := e.name + Repeat(0, NAME_END - |e.name|);
    var size := OctalFixed(|e.data|, 11) + [0];
    var b := HeaderBefore(e);
    assert b == name + Repeat(0, 24) + size + Repeat(0, 12);
    assert b[..NAME_END] == name;
    assert b[SIZE_START..SIZE_END] == size;
  }

  /** The fields of a written header: magic, type, checksum, size and
      name are where `read_raw` and `file_name` look for them, and the
      stored checksum is the header's own sum. */
  lemma {:induction false} MakeHeaderFields(e: Entry)
    requires ValidEntry(e)
    ensures var h := MakeHeader(e);
      && h[MAGIC_START..MAGIC_END] == MAGIC && h[TYPE_AT] == e.typ
      && h[CHECKSUM_START..CHECKSUM_END] == OctalFixed(HeaderSum(h, HEADER_LEN), 6) + [0] + [0x20]
      && HeaderSum(h, HEADER_LEN) < Pow8(6)
      && h[SIZE_START..SIZE_END] == OctalFixed(|e.data|, 11) + [0] + []
      && h[..NAME_END] == e.name + Repeat(0, NAME_END - |e.name|)
  {
    var before, after := HeaderBefore(e), HeaderAfter(e);
    var blank := before + Repeat(0x20, 8) + after;
    var sum := HeaderSum(blank, HEADER_LEN);
    var field := OctalFixed(sum, 6) + [0, 0x20];
    var h := MakeHeader(e);
    assert h == before + field + after;
    HeaderSplit(before, field, after);
    HeaderBeforeFields(e);
    assert after[MAGIC_START - CHECKSUM_END..MAGIC_END - CHECKSUM_END] == MAGIC;
    assert h[MAGIC_START..MAGIC_END] == after[MAGIC_START - CHECKSUM_END..MAGIC_END - CHECKSUM_END];
    HeaderSumIgnoresField(h, blank, HEADER_LEN);
    HeaderSumBound(blank, HEADER_LEN);
  }

  /** Where the three parts of a header sit. */
  lemma {:induction false} HeaderSplit(before: seq<u8>, field: seq<u8>, after: seq<u8>)
    requires |before| == CHECKSUM_START && |field| == CHECKSUM_END - CHECKSUM_START
    requires |after| == HEADER_LEN - CHECKSUM_END
    ensures var h := before + field + after;
      && h[..CHECKSUM_START] == before && h[CHECKSUM_START..CHECKSUM_END] == field
      && h[CHECKSUM_END..] == after
      && h[..NAME_END] == before[..NAME_END]
      && h[SIZE_START..SIZE_END] == before[SIZE_START..SIZE_END]
      && h[MAGIC_START..MAGIC_END] == after[MAGIC_START - CHECKSUM_END..MAGIC_END - CHECKSUM_END]
      && h[TYPE_AT] == after[0]
  {
  }

  /** `read_raw` looks only at the header and the data length. */
  lemma {:induction false} ReadRawOfHeader(h: seq<u8>, data: seq<u8>, rest: seq<u8>)
    requires |h| == HEADER_LEN
    ensures var s := h + data + rest;
      && s[..HEADER_LEN] == h
      && s[MAGIC_START..MAGIC_END] == h[MAGIC_START..MAGIC_END] && s[TYPE_AT] == h[TYPE_AT]
      && s[CHECKSUM_START..CHECKSUM_END] == h[CHECKSUM_START..CHECKSUM_END]
      && s[SIZE_START..SIZE_END] == h[SIZE_START..SIZE_END]
      && HeaderSum(s, HEADER_LEN) == HeaderSum(h, HEADER_LEN)
      && s[HEADER_LEN..HEADER_LEN + |data|] == data
  {
    var s := h + data + rest;
    HeaderSumIgnoresField(s, h, HEADER_LEN);
  }

  /** A slice that starts with a valid header and its data, and goes on
      for at least one more byte, is read as exactly that header and
      data. */
  lemma {:induction false} ReadRawAt(h: seq<u8>, data: seq<u8>, s: seq<u8>)
    requires ValidHeader(h, |data|) && |s| > HEADER_LEN + |data|
    requires s[..HEADER_LEN] == h && s[HEADER_LEN..HEADER_LEN + |data|] == data
    ensures ReadRaw(s).Ok? && ReadRaw(s).value == UstarFile(h, data)
  {
    assert s[CHECKSUM_START..CHECKSUM_END] == h[CHECKSUM_START..CHECKSUM_END];
    assert s[SIZE_START..SIZE_END] == h[SIZE_START..SIZE_END];
    assert forall i :: MAGIC_START <= i < MAGIC_END ==> s[i] == h[i];
    HeaderSumIgnoresField(s, h, HEADER_LEN);
  }

  /** A valid header followed by its data and at least one more byte is
      read back as exactly that header and data. */
  lemma {:induction false} ReadRawValid(h: seq<u8>, data: seq<u8>, rest: seq<u8>)
    requires ValidHeader(h, |data|) && |rest| > 0
    ensures ReadRaw(h + data + rest).Ok? && ReadRaw(h + data + rest).value == UstarFile(h, data)
  {
    var s := h + data + rest;
    assert s[..HEADER_LEN] == h && s[HEADER_LEN..HEADER_LEN + |data|] == data;
    ReadRawAt(h, data, s);
  }

  /** The size check is strict: a valid header whose data ends exactly
      where the slice ends is refused as `SliceTooSmall`. */
  lemma {:induction false} ExactFitRefused(h: seq<u8>, data: seq<u8>)
    requires ValidHeader(h, |data|)
    ensures ReadRaw(h + data) == Err(SliceTooSmall)
  {
    ReadRawOfHeader(h, data, []);
    assert h + data + [] == h + data;
    HasMagicSlice(h);
    HasMagicSlice(h + data);
  }

  /** A written header is valid for its entry's data and carries its
      name. */
  lemma {:induction false} MakeHeaderValid(e: Entry)
    requires ValidEntry(e)
    ensures ValidHeader(MakeHeader(e), |e.data|)
    ensures MakeHeader(e)[..NAME_END] == e.name + Repeat(0, NAME_END - |e.name|)
  {
    var h := MakeHeader(e);
    MakeHeaderFields(e);
    HasMagicSlice(h);
    OctFieldRoundTrip(HeaderSum(h, HEADER_LEN), 6, [0x20]);
    OctFieldRoundTrip(|e.data|, 11, []);
  }

  /** The header of a written entry, followed by its data and at least
      one more byte, is read back with the entry's name, type and data. */
  lemma {:induction false} ReadRawRoundTrip(e: Entry, rest: seq<u8>)
    requires ValidEntry(e) && |rest| > 0
    ensures var r := ReadRaw(MakeHeader(e) + e.data + rest);
      && r.Ok? && r.value == UstarFile(MakeHeader(e), e.data)
      && FileName(r.value) == e.name
      && IsDirectory(r.value) == (e.typ == 0x35)
      && IsFile(r.value) == (e.typ == 0x30 || e.typ == 0)
  {
    var h := MakeHeader(e);
    MakeHeaderValid(e);
    MakeHeaderFields(e);
    ReadRawValid(h, e.data, rest);
    NulPrefixStop(h[..NAME_END], |e.name|);
    assert h[..NAME_END][..|e.name|] == e.name;
  }

  /** An all-zero block ends the walk: its magic is wrong. */
  lemma {:induction false} ZeroBlockStops(rest: seq<u8>)
    ensures ReadRaw(Repeat(0, 1024) + rest) == Err(InvalidMagic)
  {
    var s := Repeat(0, 1024) + rest;
    assert s[MAGIC_START] == 0 != MAGIC[0];
  }

  /** A file as stored: header, data, zero padding to the next block. */
  function Block(f: UstarFile): seq<u8>
  {
    f.header + f.data + Repeat(0, Padding(|f.data|))
  }

  function Blocks(fs: seq<UstarFile>): seq<u8>
  {
    if fs == [] then [] else Block(fs[0]) + Blocks(fs[1..])
  }

  /** Every file of `fs` has a header that is valid for its data. */
  predicate AllValid(fs: seq<UstarFile>)
  {
    fs == [] || (ValidHeader(fs[0].header, |fs[0].data|) && AllValid(fs[1..]))
  }

  /** `s` holds the files of `fs`, each at a block boundary as
      `Block` lays it out, and then two zero blocks. */
  predicate Stored(fs: seq<UstarFile>, s: seq<u8>)
    decreases |fs|
  {
    if fs == [] then s == Repeat(0, 1024)
    else
      var f := fs[0];
      var skip := HEADER_LEN + |f.data| + Padding(|f.data|);
      && |f.header| == HEADER_LEN && skip <= |s| && HEADER_LEN + |f.data| < |s|
      && s[..HEADER_LEN] == f.header && s[HEADER_LEN..HEADER_LEN + |f.data|] == f.data
      && Stored(fs[1..], s[skip..])
  }

  /** The first file of a stored layout, and the layout of the rest. */
  lemma {:induction false} StoredHead(fs: seq<UstarFile>, s: seq<u8>) returns (tail: seq<u8>)
    requires fs != [] && AllValid(fs) && Stored(fs, s)
    ensures var f := fs[0]; var skip := HEADER_LEN + |f.data| + Padding(|f.data|);
      && ValidHeader(f.header, |f.data|) && skip <= |s| && HEADER_LEN + |f.data| < |s|
      && s[..HEADER_LEN] == f.header && s[HEADER_LEN..HEADER_LEN + |f.data|] == f.data
      && tail == s[skip..]
    ensures AllValid(fs[1..]) && Stored(fs[1..], tail)
  {
    tail := s[HEADER_LEN + |fs[0].data| + Padding(|fs[0].data|)..];
  }

  /** Two zero blocks alone are an empty archive. */
  lemma {:induction false} EndStops(s: seq<u8>)
    requires s == Repeat(0, 1024)
    ensures AllEntries(s) == Returns([])
  {
    assert s == Repeat(0, 1024) + [];
    ZeroBlockStops([]);
    AllEntriesStep(s);
  }

  /** A stored file with a valid header, followed by a walk that yields
      the remaining files, is walked as all of them. */
  lemma {:induction false} WalkCons(fs: seq<UstarFile>, s: seq<u8>, tail: seq<u8>)
    requires fs != [] && ValidHeader(fs[0].header, |fs[0].data|)
    requires var f := fs[0]; var skip := HEADER_LEN + |f.data| + Padding(|f.data|);
      && skip <= |s| && HEADER_LEN + |f.data| < |s|
      && s[..HEADER_LEN] == f.header && s[HEADER_LEN..HEADER_LEN + |f.data|] == f.data
      && s[skip..] == tail
    requires AllEntries(tail) == Returns(fs[1..])
    ensures AllEntries(s) == Returns(fs)
  {
    var f := fs[0];
    assert fs == [f] + fs[1..];
    ReadRawAt(f.header, f.data, s);
    AllEntriesCons(s, f, tail);
  }

  /** Reading back stored files with valid headers yields the files, in
      order. */
  lemma {:induction false} WalkStored(fs: seq<UstarFile>, s: seq<u8>)
    requires AllValid(fs) && Stored(fs, s)
    ensures AllEntries(s) == Returns(fs)
    decreases |fs|
  {
    if fs == [] {
      EndStops(s);
    } else {
      var tail := StoredHead(fs, s);
      WalkStored(fs[1..], tail);
      WalkCons(fs, s, tail);
    }
  }

  /** A stored file at the head of `s`, then the stored layout `tail`. */
  lemma {:induction false} StoredCons(fs: seq<UstarFile>, s: seq<u8>, tail: seq<u8>)
    requires fs != [] && |fs[0].header| == HEADER_LEN
    requires var f := fs[0]; var skip := HEADER_LEN + |f.data| + Padding(|f.data|);
      && skip <= |s| && HEADER_LEN + |f.data| < |s|
      && s[..HEADER_LEN] == f.header && s[HEADER_LEN..HEADER_LEN + |f.data|] == f.data
      && s[skip..] == tail
    requires Stored(fs[1..], tail)
    ensures Stored(fs, s)
  {
  }

  /** Where the parts of a block sit when something follows it. */
  lemma {:induction false} BlockSplit(f: UstarFile, rest: seq<u8>)
    requires |f.header| == HEADER_LEN
    ensures var s := Block(f) + rest; var skip := HEADER_LEN + |f.data| + Padding(|f.data|);
      && |s| == skip + |rest|
      && s[..HEADER_LEN] == f.header && s[HEADER_LEN..HEADER_LEN + |f.data|] == f.data
      && s[skip..] == rest
  {
    var pad := Repeat(0, Padding(|f.data|));
    var s := Block(f) + rest;
    assert s == f.header + f.data + (pad + rest);
    SplitThree(f.header, f.data, pad, rest);
    assert s[..HEADER_LEN] == f.header;
    assert s[HEADER_LEN..HEADER_LEN + |f.data|] == f.data;
  }

  /** `Blocks` followed by two zero blocks is a stored layout. */
  lemma {:induction false} BlocksStored(fs: seq<UstarFile>)
    requires forall i :: 0 <= i < |fs| ==> |fs[i].header| == HEADER_LEN
    ensures Stored(fs, Blocks(fs) + Repeat(0, 1024))
    decreases |fs|
  {
    if fs != [] {
      var f := fs[0];
      var tail := Blocks(fs[1..]) + Repeat(0, 1024);
      var s := Blocks(fs) + Repeat(0, 1024);
      assert s == Block(f) + tail;
      BlocksStored(fs[1..]);
      BlockSplit(f, tail);
      StoredCons(fs, s, tail);
    }
  }

  /** The files the entries become once written: each entry's header
      followed by its data, in order. */
  function Written(es: seq<Entry>): (r: seq<UstarFile>)
    requires forall i :: 0 <= i < |es| ==> ValidEntry(es[i])
    ensures |r| == |es|
    ensures forall i :: 0 <= i < |es| ==> r[i] == UstarFile(MakeHeader(es[i]), es[i].data)
  {
    if es == [] then [] else [UstarFile(MakeHeader(es[0]), es[0].data)] + Written(es[1..])
  }

  lemma {:induction false} WrittenValid(es: seq<Entry>)
    requires forall i :: 0 <= i < |es| ==> ValidEntry(es[i])
    ensures AllValid(Written(es))
  {
    if es != [] {
      MakeHeaderValid(es[0]);
      WrittenValid(es[1..]);
      assert Written(es)[1..] == Written(es[1..]);
    }
  }

  /** The archive of a list of entries. */
  function Archive(es: seq<Entry>): seq<u8>
    requires forall i :: 0 <= i < |es| ==> ValidEntry(es[i])
  {
    Blocks(Written(es))
  }

  /** Reading back an archive terminated by two zero blocks yields its
      entries, in order, with their headers and data. */
  lemma {:induction false} AllEntriesRoundTrip(es: seq<Entry>)
    requires forall i :: 0 <= i < |es| ==> ValidEntry(es[i])
    ensures AllEntries(Archive(es) + Repeat(0, 1024)) == Returns(Written(es))
  {
    WrittenValid(es);
    BlocksStored(Written(es));
    WalkStored(Written(es), Archive(es) + Repeat(0, 1024));
  }

  /** Splitting off three leading parts leaves the fourth. */
  lemma {:induction false} SplitThree(a: seq<u8>, b: seq<u8>, c: seq<u8>, d: seq<u8>)
    ensures (a + b + (c + d))[|a| + |b| + |c|..] == d
  {
    assert a + b + (c + d) == (a + b + c) + d;
  }

  /** An entry read at the head of the archive is followed by the walk of
      what comes after its padding. */
  lemma {:induction false} AllEntriesCons(s: seq<u8>, f: UstarFile, tail: seq<u8>)
    requires ReadRaw(s).Ok? && ReadRaw(s).value == f
    requires HEADER_LEN + |f.data| + Padding(|f.data|) <= |s|
    requires s[HEADER_LEN + |f.data| + Padding(|f.data|)..] == tail
    ensures AllEntries(s) == Prepend(f, AllEntries(tail))
  {
    var k := HEADER_LEN + |f.data| + Padding(|f.data|);
    AllEntriesStep(s);
    assert AllEntries(s) == Prepend(f, AllEntries(s[k..]));
  }

  /** A non-octal byte before the first NUL is refused, and a field whose
      first byte is NUL reads as 0. */
  lemma {:induction false} OctToU32Edges(oct: seq<u8>, i: nat)
    requires i < |oct| && 0 !in oct[..i] && oct[i] != 0 && !IsOctalDigit(oct[i])
    ensures OctToU32Spec(oct) == Err(UnexpectedNonOctalChar)
    ensures OctToU32Spec([0] + oct) == Ok(0)
  {
    NulPrefixStop(oct, i + 1);
    OctalPrefixStop(NulPrefix(oct), i);
    OctToU32Meaning(oct);
  }

  /** A string with a non-octal byte at `i` is not all octal. */
  lemma {:induction false} OctalPrefixStop(p: seq<u8>, i: nat)
    requires i < |p| && !IsOctalDigit(p[i])
    ensures !AllOctal(p)
  {
    AllOctalIff(p);
  }
}
