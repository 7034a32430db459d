/** The PC Screen Font reader of `kernel/src/video/font.rs`: the version
    and header fields of a PSF1 or PSF2 file, the unicode table that maps
    characters to glyph ids, and the bitmap of one glyph. The file is an
    arbitrary byte sequence, so every out-of-range read is a panic. */
module Font {
  import opened Base
  import Utf8

  const PSF2_MAGIC: seq<u8> := [0x72, 0xB5, 0x4A, 0x86]
  const PSF1_MAGIC: seq<u8> := [0x36, 0x04]
  /** The glyph shown for a character the font cannot map. */
  const REPLACEMENT_GLYPH: nat := 0x91

  const INVALID_PSF: string := "Invalid PSF file"
  const MALFORMED: string := "Malformed PSF File (Invalid UTF8)"
  const OUT_OF_BOUNDS: string := "index out of bounds"
  const UTF16_ERROR: string := "called `Result::unwrap()` on an `Err` value"
  const DIV_BY_ZERO: string := "attempt to divide by zero"
  const GLYPH_OUT_OF_RANGE: string := "Glyph ID out of range"

  datatype PsfVersion = Psf1 | Psf2 | Invalid

  /** Comparing `psf[i..]` with `pat[i..]` byte by byte, as a chain of `&&`
      does: the first difference gives `false`, a read past the end of the
      file panics. */
  function Matches(psf: seq<u8>, pat: seq<u8>, i: nat): Run<bool>
    requires i <= |pat|
    decreases |pat| - i
  {
    if i == |pat| then Returns(true)
    else if i >= |psf| then Panics(OUT_OF_BOUNDS)
    else if psf[i] != pat[i] then Returns(false)
    else Matches(psf, pat, i + 1)
  }

  /** The comparison holds exactly when `pat` starts the file, and panics
      exactly when the file ends before the first difference. */
  lemma {:induction false} MatchesMeaning(psf: seq<u8>, pat: seq<u8>, i: nat)
    requires i <= |pat| && i <= |psf| && psf[..i] == pat[..i]
    ensures Matches(psf, pat, i) == Returns(true) <==> |pat| <= |psf| && psf[..|pat|] == pat
    ensures Matches(psf, pat, i).Panics? <==> |psf| < |pat| && psf == pat[..|psf|]
    decreases |pat| - i
  {
    if i < |pat| && i < |psf| {
      if psf[i] == pat[i] {
        assert psf[..i + 1] == psf[..i] + [psf[i]] && pat[..i + 1] == pat[..i] + [pat[i]];
        MatchesMeaning(psf, pat, i + 1);
      } else {
        if |pat| <= |psf| {
          assert psf[..|pat|][i] != pat[i];
        }
        if |psf| < |pat| {
          assert pat[..|psf|][i] != psf[i];
        }
      }
    } else if i == |psf| && i < |pat| {
      assert psf == psf[..i];
    }
  }

  /** `psf_version`. */
  function Version(psf: seq<u8>): Run<PsfVersion>
  {
    match Matches(psf, PSF2_MAGIC, 0)
    case Panics(m) => Panics(m)
    case Returns(true) => Returns(Psf2)
    case Returns(false) =>
      match Matches(psf, PSF1_MAGIC, 0)
      case Panics(m) => Panics(m)
      case Returns(true) => Returns(Psf1)
      case Returns(false) => Returns(Invalid)
  }

  /** A file of at least four bytes has a version: PSF2 exactly when it
      starts with the PSF2 magic, PSF1 exactly when it does not and starts
      with the PSF1 magic. */
  lemma {:induction false} VersionMeaning(psf: seq<u8>)
    requires |psf| >= 4
    ensures Version(psf).Returns?
    ensures Version(psf) == Returns(Psf2) <==> psf[..4] == PSF2_MAGIC
    ensures Version(psf) == Returns(Psf1) <==> psf[..4] != PSF2_MAGIC && psf[..2] == PSF1_MAGIC
  {
    MatchesMeaning(psf, PSF2_MAGIC, 0);
    MatchesMeaning(psf, PSF1_MAGIC, 0);
  }

  /** `psf[i]`. */
  function ByteAt(psf: seq<u8>, i: nat): Run<u8>
  {
    if i < |psf| then Returns(psf[i]) else Panics(OUT_OF_BOUNDS)
  }

  /** `u32::from_le_bytes` of `psf[off..off + 4]`. */
  function Field32(psf: seq<u8>, off: nat): Run<nat>
  {
    if off + 4 <= |psf| then Returns(LeValue(psf[off..off + 4])) else Panics(OUT_OF_BOUNDS)
  }

  /** A header getter: the PSF2 field at `off2`, or the PSF1 value, or a
      panic for an invalid file. */
  function Getter(psf: seq<u8>, off2: nat, psf1: Run<nat>): Run<nat>
  {
    match Version(psf)
    case Panics(m) => Panics(m)
    case Returns(Psf2) => Field32(psf, off2)
    case Returns(Psf1) => psf1
    case Returns(Invalid) => Panics(INVALID_PSF)
  }

  function Width(psf: seq<u8>): Run<nat>
  {
    Getter(psf, 28, Returns(8))
  }

  function Height(psf: seq<u8>): Run<nat>
  {
    Getter(psf, 24, ByteAt(psf, 3))
  }

  function Charsize(psf: seq<u8>): Run<nat>
  {
    Getter(psf, 20, ByteAt(psf, 3))
  }

  function HeaderLen(psf: seq<u8>): Run<nat>
  {
    Getter(psf, 8, Returns(4))
  }

  function GlyphCount(psf: seq<u8>): Run<nat>
  {
    Getter(psf, 16, if |psf| <= 2 then Panics(OUT_OF_BOUNDS) else if psf[2] % 2 == 1 then Returns(512) else Returns(256))
  }

  /** `has_unicode_table`: bit 1 of the PSF1 mode byte, else bit 0 of the
      PSF2 flags (read for an invalid file as well). */
  function HasUnicodeTable(psf: seq<u8>): Run<bool>
  {
    match Version(psf)
    case Panics(m) => Panics(m)
    case Returns(Psf1) => if |psf| <= 2 then Panics(OUT_OF_BOUNDS) else Returns((psf[2] / 2) % 2 == 1)
    case Returns(_) => if |psf| <= 12 then Panics(OUT_OF_BOUNDS) else Returns(psf[12] % 2 == 1)
  }

  /** A PSF2 header with the given fields: magic, version 0, header
      length, flags, glyph count, glyph size, height and width, each a
      little-endian `u32`. */
  function Psf2Header(headerLen: u32, flags: u32, count: u32, charsize: u32, height: u32, width: u32): (r: seq<u8>)
    ensures |r| == 32
  {
    PSF2_MAGIC + LeBytes(0, 4) + LeBytes(headerLen, 4) + LeBytes(flags, 4)
      + LeBytes(count, 4) + LeBytes(charsize, 4) + LeBytes(height, 4) + LeBytes(width, 4)
  }

  /** The getters read back every field of a PSF2 header, whatever
      follows it. */
  lemma {:induction false} Psf2HeaderRoundTrip(headerLen: u32, flags: u32, count: u32, charsize: u32, height: u32, width: u32, rest: seq<u8>)
    ensures var psf := Psf2Header(headerLen, flags, count, charsize, height, width) + rest;
      && Version(psf) == Returns(Psf2)
      && HeaderLen(psf) == Returns(headerLen) && GlyphCount(psf) == Returns(count)
      && Charsize(psf) == Returns(charsize) && Height(psf) == Returns(height) && Width(psf) == Returns(width)
      && HasUnicodeTable(psf) == Returns(flags % 2 == 1)
  {
    var psf := Psf2Header(headerLen, flags, count, charsize, height, width) + rest;
    assert psf[..4] == PSF2_MAGIC;
    VersionMeaning(psf);
    Psf2Field(psf, 8, headerLen);
    Psf2Field(psf, 12, flags);
    Psf2Field(psf, 16, count);
    Psf2Field(psf, 20, charsize);
    Psf2Field(psf, 24, height);
    Psf2Field(psf, 28, width);
    assert psf[12..16] == LeBytes(flags, 4);
    assert psf[12] == flags % 256;
    LowBit(flags);
    assert HasUnicodeTable(psf) == Returns(psf[12] % 2 == 1);
  }

  /** The low bit of a number is the low bit of its low byte. */
  lemma LowBit(x: nat)
    ensures (x % 256) % 2 == x % 2
  {
    assert x == 256 * (x / 256) + x % 256;
    assert (256 * (x / 256)) % 2 == 0;
  }

  /** One field of `Psf2Header`. */
  lemma {:induction false} Psf2Field(psf: seq<u8>, off: nat, v: u32)
    requires off + 4 <= |psf| && psf[off..off + 4] == LeBytes(v, 4)
    ensures Field32(psf, off) == Returns(v)
  {
    assert Pow256(4) == 0x1_0000_0000 by {
      assert Pow256(1) == 256 && Pow256(2) == 65536 && Pow256(3) == 16777216;
    }
    LeValueOfBytes(v, 4);
  }

  /** The getters on a PSF1 header `36 04 mode size`: width 8, height and
      glyph size from the size byte, header length 4, 512 glyphs when mode
      bit 0 is set and 256 otherwise, and a unicode table when mode bit 1
      is set. */
  lemma {:induction false} Psf1HeaderRoundTrip(mode: u8, size: u8, rest: seq<u8>)
    requires !(mode == 0x4A && size == 0x86)
    ensures var psf := PSF1_MAGIC + [mode, size] + rest;
      && Version(psf) == Returns(Psf1)
      && Width(psf) == Returns(8) && Height(psf) == Returns(size) && Charsize(psf) == Returns(size)
      && HeaderLen(psf) == Returns(4) && GlyphCount(psf) == Returns(if mode % 2 == 1 then 512 else 256)
      && HasUnicodeTable(psf) == Returns((mode / 2) % 2 == 1)
  {
    var psf := PSF1_MAGIC + [mode, size] + rest;
    assert psf[..2] == PSF1_MAGIC;
    assert psf[0] != 0x72;
    VersionMeaning(psf);
  }

  /** The state of the PSF2 table decoder: how much of a UTF-8 sequence
      has been read, or inside a skipped character sequence. */
  datatype Utf8State =
    | ZeroBytes
    | OneOfTwo(b1: u8)
    | OneOfThree(b1: u8)
    | TwoOfThree(b1: u8, b2: u8)
    | OneOfFour(b1: u8)
    | TwoOfFour(b1: u8, b2: u8)
    | ThreeOfFour(b1: u8, b2: u8, b3: u8)
    | InSeq

  /** The decoder's variables between two bytes. */
  datatype Decoder = Decoder(state: Utf8State, gid: nat, glyphs: map<nat, nat>)

  /** The code points the decoder assembles: the payload bits of each byte
      (`& 0x1F`, `& 0x0F`, `& 0x07`, `& 0x3F`) shifted into place and
      combined with `|`, which on disjoint bits is a sum. */
  function Assemble2(b1: u8, b2: u8): nat { (b1 % 32) * 64 + b2 % 64 }
  function Assemble3(b1: u8, b2: u8, b3: u8): nat { (b1 % 16) * 4096 + (b2 % 64) * 64 + b3 % 64 }
  function Assemble4(b1: u8, b2: u8, b3: u8, b4: u8): nat
  {
    (b1 % 8) * 262144 + (b2 % 64) * 4096 + (b3 % 64) * 64 + b4 % 64
  }

  /** One byte of the PSF2 unicode table. */
  function Feed(d: Decoder, byte: u8): Run<Decoder>
  {
    match d.state
    case ZeroBytes =>
      if byte == 0xFF then Returns(d.(gid := d.gid + 1))
      else if byte == 0xFE then Returns(d.(state := InSeq))
      else if byte <= 0x7F then Returns(d.(glyphs := d.glyphs[byte := d.gid]))
      else if 0xC0 <= byte <= 0xDF then Returns(d.(state := OneOfTwo(byte)))
      else if 0xE0 <= byte <= 0xEF then Returns(d.(state := OneOfThree(byte)))
      else if 0xF0 <= byte <= 0xF7 then Returns(d.(state := OneOfFour(byte)))
      else Panics(MALFORMED)
    case InSeq =>
      if byte == 0xFF then Returns(Decoder(ZeroBytes, d.gid + 1, d.glyphs)) else Returns(d)
    case _ =>
      if !Utf8.IsCont(byte) then Panics(MALFORMED)
      else match d.state
        case OneOfTwo(b1) => Returns(Decoder(ZeroBytes, d.gid, d.glyphs[Assemble2(b1, byte) := d.gid]))
        case OneOfThree(b1) => Returns(d.(state := TwoOfThree(b1, byte)))
        case TwoOfThree(b1, b2) => Returns(Decoder(ZeroBytes, d.gid, d.glyphs[Assemble3(b1, b2, byte) := d.gid]))
        case OneOfFour(b1) => Returns(d.(state := TwoOfFour(b1, byte)))
        case TwoOfFour(b1, b2) => Returns(d.(state := ThreeOfFour(b1, b2, byte)))
        case ThreeOfFour(b1, b2, b3) => Returns(Decoder(ZeroBytes, d.gid, d.glyphs[Assemble4(b1, b2, b3, byte) := d.gid]))
  }

  /** The loop of `generate_glyph_map_psf2` from `offset` on: it runs while
      bytes remain and the glyph id is below the glyph count. */
  function Decode2(psf: seq<u8>, count: nat, offset: nat, d: Decoder): Run<map<nat, nat>>
    decreases |psf| - offset
  {
    if offset >= |psf| || d.gid >= count then Returns(d.glyphs)
    else match Feed(d, psf[offset])
      case Panics(m) => Panics(m)
      case Returns(d') => Decode2(psf, count, offset + 1, d')
  }

  /** Every glyph id in `glyphs` is below `count`. */
  predicate InRange(glyphs: map<nat, nat>, count: nat)
  {
    forall c :: c in glyphs ==> glyphs[c] < count
  }

  /** Every key of `glyphs` is a scalar value of the Basic Multilingual
      Plane. */
  predicate BmpKeys(glyphs: map<nat, nat>)
  {
    forall c :: c in glyphs ==> Utf8.IsScalar(c) && c < 0x1_0000
  }

  /** The glyph ids the decoder stores are below the glyph count. */
  lemma {:induction false} Decode2InRange(psf: seq<u8>, count: nat, offset: nat, d: Decoder)
    requires InRange(d.glyphs, count)
    ensures Decode2(psf, count, offset, d).Returns? ==> InRange(Decode2(psf, count, offset, d).value, count)
    decreases |psf| - offset
  {
    if offset < |psf| && d.gid < count && Feed(d, psf[offset]).Returns? {
      Decode2InRange(psf, count, offset + 1, Feed(d, psf[offset]).value);
    }
  }

  /** Reading the encoding of scalar value `cp` maps `cp` to the current
      glyph and leaves the decoder between sequences; a later mapping of
      the same character overwrites an earlier one. */
  lemma {:induction false} DecodeEncoded(psf: seq<u8>, count: nat, offset: nat, d: Decoder, cp: nat)
    requires Utf8.IsScalar(cp) && d.state == ZeroBytes && d.gid < count
    requires offset + |Utf8.Encode(cp)| <= |psf| && psf[offset..offset + |Utf8.Encode(cp)|] == Utf8.Encode(cp)
    ensures Decode2(psf, count, offset, d)
      == Decode2(psf, count, offset + |Utf8.Encode(cp)|, Decoder(ZeroBytes, d.gid, d.glyphs[cp := d.gid]))
  {
    if cp < 0x80 {
      assert psf[offset] == cp;
    } else if cp < 0x800 {
      TwoByteDecode(psf, count, offset, d, cp);
    } else if cp < 0x1_0000 {
      ThreeByteDecode(psf, count, offset, d, cp);
    } else {
      FourByteDecode(psf, count, offset, d, cp);
    }
  }

  /** The two-byte case of `DecodeEncoded`. */
  lemma {:induction false} TwoByteDecode(psf: seq<u8>, count: nat, offset: nat, d: Decoder, cp: nat)
    requires 0x80 <= cp < 0x800 && d.state == ZeroBytes && d.gid < count
    requires offset + 2 <= |psf| && psf[offset..offset + 2] == Utf8.Encode(cp)
    ensures Decode2(psf, count, offset, d) == Decode2(psf, count, offset + 2, Decoder(ZeroBytes, d.gid, d.glyphs[cp := d.gid]))
  {
    var b0: u8 := 0xC0 + cp / 64;
    var b1: u8 := 0x80 + cp % 64;
    assert psf[offset] == b0 && psf[offset + 1] == b1 by {
      assert psf[offset..offset + 2][0] == b0 && psf[offset..offset + 2][1] == b1;
    }
    assert Assemble2(b0, b1) == cp by {
      assert b0 % 32 == cp / 64 && b1 % 64 == cp % 64;
    }
    var d1 := d.(state := OneOfTwo(b0));
    assert Feed(d, b0) == Returns(d1);
    assert Decode2(psf, count, offset, d) == Decode2(psf, count, offset + 1, d1);
  }

  /** The three-byte case of `DecodeEncoded`. */
  lemma {:induction false} ThreeByteDecode(psf: seq<u8>, count: nat, offset: nat, d: Decoder, cp: nat)
    requires 0x800 <= cp < 0x1_0000 && Utf8.IsScalar(cp) && d.state == ZeroBytes && d.gid < count
    requires offset + 3 <= |psf| && psf[offset..offset + 3] == Utf8.Encode(cp)
    ensures Decode2(psf, count, offset, d) == Decode2(psf, count, offset + 3, Decoder(ZeroBytes, d.gid, d.glyphs[cp := d.gid]))
  {
    var b0: u8 := 0xE0 + cp / 4096;
    var b1: u8 := 0x80 + (cp / 64) % 64;
    var b2: u8 := 0x80 + cp % 64;
    assert psf[offset] == b0 && psf[offset + 1] == b1 && psf[offset + 2] == b2 by {
      assert psf[offset..offset + 3][0] == b0 && psf[offset..offset + 3][1] == b1 && psf[offset..offset + 3][2] == b2;
    }
    assert Assemble3(b0, b1, b2) == cp by {
      assert b0 % 16 == cp / 4096 && b1 % 64 == (cp / 64) % 64 && b2 % 64 == cp % 64;
      Digits64(cp);
    }
    var d1 := d.(state := OneOfThree(b0));
    var d2 := d.(state := TwoOfThree(b0, b1));
    assert Feed(d, b0) == Returns(d1);
    assert Feed(d1, b1) == Returns(d2);
    assert Decode2(psf, count, offset + 1, d1) == Decode2(psf, count, offset + 2, d2);
  }

  /** The four-byte case of `DecodeEncoded`. */
  lemma {:induction false} FourByteDecode(psf: seq<u8>, count: nat, offset: nat, d: Decoder, cp: nat)
    requires Utf8.IsScalar(cp) && cp >= 0x1_0000 && d.state == ZeroBytes && d.gid < count
    requires offset + 4 <= |psf| && psf[offset..offset + 4] == Utf8.Encode(cp)
    ensures Decode2(psf, count, offset, d) == Decode2(psf, count, offset + 4, Decoder(ZeroBytes, d.gid, d.glyphs[cp := d.gid]))
  {
    var b0, b1, b2, b3 := FourBytes(cp);
    assert psf[offset] == b0 && psf[offset + 1] == b1 && psf[offset + 2] == b2 && psf[offset + 3] == b3 by {
      var e := psf[offset..offset + 4];
      assert e[0] == b0 && e[1] == b1 && e[2] == b2 && e[3] == b3;
    }
    var d1 := d.(state := OneOfFour(b0));
    var d2 := d.(state := TwoOfFour(b0, b1));
    var d3 := d.(state := ThreeOfFour(b0, b1, b2));
    DecodeStep(psf, count, offset, d, d1);
    DecodeStep(psf, count, offset + 1, d1, d2);
    DecodeStep(psf, count, offset + 2, d2, d3);
    DecodeStep(psf, count, offset + 3, d3, Decoder(ZeroBytes, d.gid, d.glyphs[cp := d.gid]));
  }

  /** The four bytes of `Utf8.Encode(cp)`: a lead byte and three
      continuation bytes that reassemble to `cp`. */
  lemma FourBytes(cp: nat) returns (b0: u8, b1: u8, b2: u8, b3: u8)
    requires Utf8.IsScalar(cp) && cp >= 0x1_0000
    ensures Utf8.Encode(cp) == [b0, b1, b2, b3]
    ensures 0xF0 <= b0 <= 0xF7 && Utf8.IsCont(b1) && Utf8.IsCont(b2) && Utf8.IsCont(b3)
    ensures Assemble4(b0, b1, b2, b3) == cp
  {
    var q1 := cp / 64;
    var q2 := q1 / 64;
    var q3 := q2 / 64;
    var r0, r1, r2 := cp % 64, q1 % 64, q2 % 64;
    DivModUnique(cp, 4096, q2, 64 * r1 + r0);
    DivModUnique(cp, 262144, q3, 4096 * r2 + 64 * r1 + r0);
    b0, b1, b2, b3 := 0xF0 + q3, 0x80 + r2, 0x80 + r1, 0x80 + r0;
    DivModUnique(b0, 8, 30, q3);
  }

  /** One turn of the decoder loop. */
  lemma DecodeStep(psf: seq<u8>, count: nat, offset: nat, d: Decoder, d': Decoder)
    requires offset < |psf| && d.gid < count && Feed(d, psf[offset]) == Returns(d')
    ensures Decode2(psf, count, offset, d) == Decode2(psf, count, offset + 1, d')
  {
  }

  /** Base-64 digits: `x` is its last digit plus 64 times the rest. */
  lemma Digits64(x: nat)
    ensures x == (x / 64) * 64 + x % 64
    ensures x / 4096 == (x / 64) / 64 && x / 262144 == (x / 4096) / 64
  {
  }

  /** 0xFF ends the entries of the current glyph; 0xFE starts a character
      sequence, which is skipped up to and including the next 0xFF. */
  lemma {:induction false} DecodeSeparators(psf: seq<u8>, count: nat, offset: nat, d: Decoder, k: nat)
    requires d.state == ZeroBytes && d.gid < count
    requires offset + k + 1 < |psf| && psf[offset] == 0xFE && psf[offset + k + 1] == 0xFF
    requires forall j :: offset < j <= offset + k ==> psf[j] != 0xFF
    ensures Decode2(psf, count, offset + k + 1, d) == Decode2(psf, count, offset + k + 2, d.(gid := d.gid + 1))
    ensures Decode2(psf, count, offset, d) == Decode2(psf, count, offset + k + 2, d.(gid := d.gid + 1))
  {
    SkipSeq(psf, count, offset + 1, d.(state := InSeq), offset + k + 1);
  }

  /** Inside a character sequence, bytes other than 0xFF are skipped. */
  lemma {:induction false} SkipSeq(psf: seq<u8>, count: nat, offset: nat, d: Decoder, stop: nat)
    requires d.state == InSeq && d.gid < count && offset <= stop < |psf| && psf[stop] == 0xFF
    requires forall j :: offset <= j < stop ==> psf[j] != 0xFF
    ensures Decode2(psf, count, offset, d) == Decode2(psf, count, stop + 1, Decoder(ZeroBytes, d.gid + 1, d.glyphs))
    decreases stop - offset
  {
    if offset < stop {
      SkipSeq(psf, count, offset + 1, d, stop);
    }
  }

  /** A table that lists `A` for glyph 0 and again for glyph 1 maps `A` to
      glyph 1; a stray continuation byte panics. */
  lemma {:induction false} Decode2Examples()
    ensures Decode2([0x41, 0xFF, 0x41, 0xFF], 2, 0, Decoder(ZeroBytes, 0, map[])) == Returns(map[0x41 := 1])
    ensures Decode2([0x80], 1, 0, Decoder(ZeroBytes, 0, map[])) == Panics(MALFORMED)
  {
    var d0 := Decoder(ZeroBytes, 0, map[]);
    assert Feed(d0, 0x41) == Returns(Decoder(ZeroBytes, 0, map[0x41 := 0]));
    assert Feed(Decoder(ZeroBytes, 1, map[0x41 := 0]), 0x41) == Returns(Decoder(ZeroBytes, 1, map[0x41 := 0][0x41 := 1]));
    assert map[0x41 := 0][0x41 := 1] == map[0x41 := 1];
  }

  /** The start of the unicode table: after the header and all glyphs. */
  function TableOffset(psf: seq<u8>): Run<nat>
  {
    match HeaderLen(psf)
    case Panics(m) => Panics(m)
    case Returns(hl) =>
      match Charsize(psf)
      case Panics(m) => Panics(m)
      case Returns(cs) =>
        match GlyphCount(psf)
        case Panics(m) => Panics(m)
        case Returns(n) => Returns(hl + cs * n)
  }

  /** `generate_glyph_map_psf2`. */
  function GlyphMap2(psf: seq<u8>): Run<map<nat, nat>>
  {
    match TableOffset(psf)
    case Panics(m) => Panics(m)
    case Returns(off) => Decode2(psf, GlyphCount(psf).value, off, Decoder(ZeroBytes, 0, map[]))
  }

  /** The PSF1 table decoder's state. */
  datatype Psf1State = Direct | Seq1

  /** `u16::from_le_bytes` of `psf[offset..offset + 2]`. */
  function Code16(psf: seq<u8>, offset: nat): (r: nat)
    requires offset + 2 <= |psf|
    ensures r < 0x1_0000 && r % 256 == psf[offset] && r / 256 == psf[offset + 1]
  {
    var lo: nat := psf[offset];
    var hi: nat := psf[offset + 1];
    lo + 256 * hi
  }

  /** The loop of `generate_glyph_map_psf1` from `offset` on: 16-bit
      little-endian codes, 0xFFFF ends a glyph's entries, 0xFFFE starts a
      sequence that is skipped, and a lone surrogate panics in
      `decode_utf16(..).unwrap()`. */
  function Decode1(psf: seq<u8>, count: nat, offset: nat, state: Psf1State, gid: nat, glyphs: map<nat, nat>): Run<map<nat, nat>>
    decreases |psf| - offset
  {
    if offset >= |psf| || gid >= count then Returns(glyphs)
    else if offset + 2 > |psf| then Panics(OUT_OF_BOUNDS)
    else
      var code := Code16(psf, offset);
      match state
      case Direct =>
        if code == 0xFFFF then Decode1(psf, count, offset + 2, Direct, gid + 1, glyphs)
        else if code == 0xFFFE then Decode1(psf, count, offset + 2, Seq1, gid, glyphs)
        else if 0xD800 <= code <= 0xDFFF then Panics(UTF16_ERROR)
        else Decode1(psf, count, offset + 2, Direct, gid, glyphs[code := gid])
      case Seq1 =>
        if code == 0xFFFF then Decode1(psf, count, offset + 2, Direct, gid + 1, glyphs)
        else Decode1(psf, count, offset + 2, Seq1, gid, glyphs)
  }

  /** The glyph ids the PSF1 decoder stores are below the glyph count,
      and every key is a scalar value below 0x10000. */
  lemma {:induction false} Decode1InRange(psf: seq<u8>, count: nat, offset: nat, state: Psf1State, gid: nat, glyphs: map<nat, nat>)
    requires InRange(glyphs, count) && BmpKeys(glyphs)
    ensures Decode1(psf, count, offset, state, gid, glyphs).Returns? ==>
      InRange(Decode1(psf, count, offset, state, gid, glyphs).value, count)
      && BmpKeys(Decode1(psf, count, offset, state, gid, glyphs).value)
    decreases |psf| - offset
  {
    if offset < |psf| && gid < count && offset + 2 <= |psf| {
      var code := Code16(psf, offset);
      if code == 0xFFFF {
        Decode1InRange(psf, count, offset + 2, Direct, gid + 1, glyphs);
      } else if state == Seq1 || code == 0xFFFE {
        Decode1InRange(psf, count, offset + 2, Seq1, gid, glyphs);
      } else if !(0xD800 <= code <= 0xDFFF) {
        Decode1InRange(psf, count, offset + 2, Direct, gid, glyphs[code := gid]);
      }
    }
  }

  /** A two-entry PSF1 table: `A` for glyph 0, then the end of glyph 0,
      then a surrogate for glyph 1, which panics. */
  lemma {:induction false} Decode1Examples()
    ensures Decode1([0x41, 0x00, 0xFF, 0xFF], 2, 0, Direct, 0, map[]) == Returns(map[0x41 := 0])
    ensures Decode1([0x41, 0x00, 0xFF, 0xFF, 0x00, 0xD8], 2, 0, Direct, 0, map[]) == Panics(UTF16_ERROR)
  {
    assert map[][0x41 := 0] == map[0x41 := 0];
  }

  /** `generate_glyph_map_psf1`. */
  function GlyphMap1(psf: seq<u8>): Run<map<nat, nat>>
  {
    match TableOffset(psf)
    case Panics(m) => Panics(m)
    case Returns(off) => Decode1(psf, GlyphCount(psf).value, off, Direct, 0, map[])
  }

  /** `generate_glyph_map`: empty without a unicode table, else the
      decoder for the file's version. */
  function GlyphMap(psf: seq<u8>): Run<map<nat, nat>>
  {
    match HasUnicodeTable(psf)
    case Panics(m) => Panics(m)
    case Returns(false) => Returns(map[])
    case Returns(true) =>
      match Version(psf)
      case Panics(m) => Panics(m)
      case Returns(Psf2) => GlyphMap2(psf)
      case Returns(Psf1) => GlyphMap1(psf)
      case Returns(Invalid) => Panics(INVALID_PSF)
  }

  /** Every glyph id in the glyph map names a glyph of the font. */
  lemma {:induction false} GlyphMapInRange(psf: seq<u8>)
    requires GlyphMap(psf).Returns?
    ensures GlyphCount(psf).Returns? ==> InRange(GlyphMap(psf).value, GlyphCount(psf).value)
  {
    if HasUnicodeTable(psf) == Returns(true) {
      if Version(psf) == Returns(Psf2) {
        Decode2InRange(psf, GlyphCount(psf).value, TableOffset(psf).value, Decoder(ZeroBytes, 0, map[]));
      } else {
        Decode1InRange(psf, GlyphCount(psf).value, TableOffset(psf).value, Direct, 0, map[]);
      }
    }
  }

  /** A font a console can be made with: the header fields it reads come
      back, its glyphs are at least one pixel wide and high, and its
      character map can be built. */
  predicate ConsoleFont(psf: seq<u8>)
  {
    && Width(psf).Returns? && Width(psf).value > 0
    && Height(psf).Returns? && Height(psf).value > 0
    && HasUnicodeTable(psf).Returns? && GlyphMap(psf).Returns?
  }

  /** `str_to_glyphs`: with a unicode table, each character's mapped glyph
      or the replacement glyph; without one, ASCII characters are their own
      glyph ids and the rest get the replacement glyph. */
  function StrToGlyphs(hasTable: bool, glyphs: map<nat, nat>, s: seq<char>): (r: seq<nat>)
    ensures |r| == |s|
  {
    seq(|s|, i requires 0 <= i < |s| => GlyphOf(hasTable, glyphs, s[i]))
  }

  /** The glyph `str_to_glyphs` gives one character. */
  function GlyphOf(hasTable: bool, glyphs: map<nat, nat>, c: char): nat
  {
    if hasTable then (if c as nat in glyphs then glyphs[c as nat] else REPLACEMENT_GLYPH)
    else if c as nat < 0x80 then c as nat
    else REPLACEMENT_GLYPH
  }

  /** When every mapped glyph exists and the font has more than 0x91
      glyphs, every glyph id `str_to_glyphs` yields names a glyph, so its
      bitmap can be fetched. */
  lemma {:induction false} StrToGlyphsInRange(hasTable: bool, glyphs: map<nat, nat>, s: seq<char>, count: nat)
    requires count > REPLACEMENT_GLYPH
    requires InRange(glyphs, count)
    ensures forall i :: 0 <= i < |s| ==> StrToGlyphs(hasTable, glyphs, s)[i] < count
  {
  }

  /** Where glyph `gid` starts: `header_len + gid * charsize`. */
  function GlyphOffset(headerLen: nat, gid: nat, charsize: nat): nat
  {
    headerLen + gid * charsize
  }

  /** `charsize / height`. */
  function BytesPerRow(charsize: nat, height: nat): nat
    requires height > 0
  {
    charsize / height
  }

  /** `get_glyph_bitmap`: `Err` for a glyph id past the glyph count, else
      the bytes per row and the glyph's bytes. */
  function GlyphBitmap(psf: seq<u8>, gid: nat): Run<Result<(nat, seq<u8>), string>>
  {
    match GlyphCount(psf)
    case Panics(m) => Panics(m)
    case Returns(count) =>
      if gid >= count then Returns(Err(GLYPH_OUT_OF_RANGE))
      else match HeaderLen(psf)
        case Panics(m) => Panics(m)
        case Returns(hl) =>
          match Charsize(psf)
          case Panics(m) => Panics(m)
          case Returns(cs) =>
            match Height(psf)
            case Panics(m) => Panics(m)
            case Returns(h) =>
              var offset := GlyphOffset(hl, gid, cs);
              if h == 0 then Panics(DIV_BY_ZERO)
              else if offset + cs > |psf| then Panics(OUT_OF_BOUNDS)
              else Returns(Ok((BytesPerRow(cs, h), psf[offset..offset + cs])))
  }

  /** For a file whose header reads back (as `Psf2HeaderRoundTrip` and
      `Psf1HeaderRoundTrip` show for either version), the bitmap of glyph
      `gid` is `Err` exactly when `gid` is past the glyph count; otherwise
      it is the `charsize` bytes at `header_len + gid * charsize`,
      `charsize / height` bytes to a row, and a panic when those bytes run
      past the end of the file. */
  lemma {:induction false} GlyphBitmapMeaning(psf: seq<u8>, gid: nat, headerLen: nat, count: nat, charsize: nat, height: nat)
    requires HeaderLen(psf) == Returns(headerLen) && GlyphCount(psf) == Returns(count)
    requires Charsize(psf) == Returns(charsize) && Height(psf) == Returns(height) && height > 0
    ensures GlyphBitmap(psf, gid) == Returns(Err(GLYPH_OUT_OF_RANGE)) <==> gid >= count
    ensures var offset := GlyphOffset(headerLen, gid, charsize);
      gid < count && offset + charsize <= |psf| ==>
        GlyphBitmap(psf, gid) == Returns(Ok((BytesPerRow(charsize, height), psf[offset..offset + charsize])))
    ensures var offset := GlyphOffset(headerLen, gid, charsize);
      gid < count && offset + charsize > |psf| ==> GlyphBitmap(psf, gid) == Panics(OUT_OF_BOUNDS)
  {
  }

  /** `generate_glyph_map_psf2`, the loop over the table. */
  method GenerateGlyphMapPsf2(psf: seq<u8>) returns (r: Run<map<nat, nat>>)
    ensures r == GlyphMap2(psf)
  {
    var start := TableOffset(psf);
    if start.Panics? {
      return Panics(start.reason);
    }
    var count := GlyphCount(psf).value;
    var offset := start.value;
    var d := Decoder(ZeroBytes, 0, map[]);
    while offset < |psf| && d.gid < count
      invariant Decode2(psf, count, offset, d) == GlyphMap2(psf)
      decreases |psf| - offset
    {
      var byte := psf[offset];
      offset := offset + 1;
      var next := Feed(d, byte);
      if next.Panics? {
        return Panics(next.reason);
      }
      d := next.value;
    }
    return Returns(d.glyphs);
  }

  /** `generate_glyph_map_psf1`, the loop over the table. */
  method GenerateGlyphMapPsf1(psf: seq<u8>) returns (r: Run<map<nat, nat>>)
    ensures r == GlyphMap1(psf)
  {
    var start := TableOffset(psf);
    if start.Panics? {
      return Panics(start.reason);
    }
    var count := GlyphCount(psf).value;
    var offset := start.value;
    var state := Direct;
    var gid := 0;
    var glyphs: map<nat, nat> := map[];
    while offset < |psf| && gid < count
      invariant Decode1(psf, count, offset, state, gid, glyphs) == GlyphMap1(psf)
      decreases |psf| - offset
    {
      if offset + 2 > |psf| {
        return Panics(OUT_OF_BOUNDS);
      }
      var code := Code16(psf, offset);
      offset := offset + 2;
      match state {
        case Direct =>
          if code == 0xFFFF {
            gid := gid + 1;
          } else if code == 0xFFFE {
            state := Seq1;
          } else if 0xD800 <= code <= 0xDFFF {
            return Panics(UTF16_ERROR);
          } else {
            glyphs := glyphs[code := gid];
          }
        case Seq1 =>
          if code == 0xFFFF {
            gid := gid + 1;
            state := Direct;
          }
      }
    }
    return Returns(glyphs);
  }
}
