/** The bitmapped framebuffer of `kernel/src/video/framebuffer.rs`: RGBA
    pixels, the `GfxRectangle` that holds them row by row, and the default
    `Framebuffer::blit`, which clips a rectangle to the screen and copies
    its opaque pixels into framebuffer memory channel by channel. */
module Framebuffer {
  import opened Base

  type i32 = x: int | -0x8000_0000 <= x < 0x8000_0000

  const U32_LIMIT: nat := 0x1_0000_0000
  const I32_LIMIT: nat := 0x8000_0000
  const I32_MIN: int := -0x8000_0000

  const INDEX_EXPECT: string := "Index out of bounds"
  const OUT_OF_BOUNDS: string := "index out of bounds"
  const ADD_OVERFLOW: string := "attempt to add with overflow"
  const SUB_OVERFLOW: string := "attempt to subtract with overflow"
  const MUL_OVERFLOW: string := "attempt to multiply with overflow"

  /** A 32-bit RGBA pixel. */
  datatype Pixel = Pixel(r: u8, g: u8, b: u8, a: u8)

  /** `Pixel::BLANK`: opaque black. */
  const BLANK: Pixel := Pixel(0, 0, 0, 255)

  /** `Pixel::new_rgb`: an opaque pixel. */
  function NewRgb(r: u8, g: u8, b: u8): Pixel
  {
    Pixel(r, g, b, 255)
  }

  /** `Pixel::from_u32_rgba`: the big-endian bytes of `0xRRGGBBAA`. */
  function FromU32Rgba(x: u32): Pixel
  {
    Pixel((x / 0x100_0000) % 256, (x / 0x1_0000) % 256, (x / 0x100) % 256, x % 256)
  }

  /** `Pixel::from_u32_rgb`: the low three big-endian bytes of
      `0x00RRGGBB`, fully opaque. */
  function FromU32Rgb(x: u32): Pixel
  {
    Pixel((x / 0x1_0000) % 256, (x / 0x100) % 256, x % 256, 255)
  }

  /** The hex colour code `0xRRGGBBAA` of a pixel. */
  function ToU32Rgba(p: Pixel): u32
  {
    p.r * 0x100_0000 + p.g * 0x1_0000 + p.b * 0x100 + p.a
  }

  /** `from_u32_rgba` reads back the four channels of any pixel. */
  lemma RgbaRoundTrip(p: Pixel)
    ensures FromU32Rgba(ToU32Rgba(p)) == p
  {
    var v := ToU32Rgba(p);
    var q1, q2 := p.r * 0x1_0000 + p.g * 0x100 + p.b, p.r * 0x100 + p.g;
    DivModUnique(v, 0x100, q1, p.a);
    DivModUnique(q1, 0x100, q2, p.b);
    DivModUnique(v, 0x1_0000, q2, p.b * 0x100 + p.a);
    DivModUnique(q2, 0x100, p.r, p.g);
    DivModUnique(v, 0x100_0000, p.r, p.g * 0x1_0000 + p.b * 0x100 + p.a);
    DivModUnique(p.r, 0x100, 0, p.r);
  }

  /** Every `u32` is the hex code of the pixel `from_u32_rgba` makes of
      it. */
  lemma RgbaCodeRoundTrip(x: u32)
    ensures ToU32Rgba(FromU32Rgba(x)) == x
  {
    var d0, d1, d2, d3 := Bytes(x);
  }

  /** The big-endian bytes of `x`, as digits. */
  lemma Bytes(x: u32) returns (d0: u8, d1: u8, d2: u8, d3: u8)
    ensures x == d3 * 0x100_0000 + d2 * 0x1_0000 + d1 * 0x100 + d0
    ensures x % 256 == d0 && (x / 0x100) % 256 == d1 && (x / 0x1_0000) % 256 == d2 && (x / 0x100_0000) % 256 == d3
    ensures x % 0x100_0000 == d2 * 0x1_0000 + d1 * 0x100 + d0
  {
    var q1 := x / 0x100;
    var q2 := q1 / 0x100;
    d0, d1, d2, d3 := x % 256, q1 % 256, q2 % 256, q2 / 256;
    DivModUnique(x, 0x1_0000, q2, d1 * 256 + d0);
    DivModUnique(x, 0x100_0000, d3, d2 * 0x1_0000 + d1 * 256 + d0);
  }

  /** `from_u32_rgb` ignores the top byte: it is `from_u32_rgba` of the low
      three bytes followed by an opaque alpha byte. */
  lemma RgbIgnoresTopByte(x: u32)
    ensures FromU32Rgb(x) == FromU32Rgba((x % 0x100_0000) * 256 + 255)
  {
    var d0, d1, d2, d3 := Bytes(x);
    RgbaRoundTrip(Pixel(d2, d1, d0, 255));
  }

  /** `new_rgb` is `from_u32_rgb` of the colour's hex code `0xRRGGBB`. */
  lemma NewRgbIsHex(r: u8, g: u8, b: u8)
    ensures NewRgb(r, g, b) == FromU32Rgb(r * 0x1_0000 + g * 0x100 + b)
  {
    var v := r * 0x1_0000 + g * 0x100 + b;
    DivModUnique(v, 0x100, r * 0x100 + g, b);
    DivModUnique(v, 0x1_0000, r, g * 0x100 + b);
  }

  /** How a pixel's colour channels sit in framebuffer memory. */
  datatype PixelFormat = PixelFormat(redShift: u8, redWidth: u8, greenShift: u8, greenWidth: u8, blueShift: u8, blueWidth: u8)

  /** `PixelFormat::RGBA`, the layout of `Pixel` itself. */
  const RGBA: PixelFormat := PixelFormat(0, 8, 8, 8, 16, 8)

  /** `FramebufferInfo`: the format, bytes per pixel, the width and height
      in pixels, the bytes per row and the buffer length. */
  datatype FramebufferInfo = FramebufferInfo(format: PixelFormat, bytesPerPixel: nat, width: u32, height: u32, stride: nat, bufferLen: nat)

  /** `NullFramebuffer::info`. */
  const NULL_INFO: FramebufferInfo := FramebufferInfo(RGBA, 4, 0, 0, 0, 0)

  /** `y * width + x`, where pixel `(x, y)` sits in a rectangle. */
  function Flat(x: nat, y: nat, width: nat): nat
  {
    y * width + x
  }

  /** A pixel inside a `width` by `height` rectangle has a place in it. */
  lemma FlatInRange(x: nat, y: nat, width: nat, height: nat)
    requires x < width && y < height
    ensures Flat(x, y, width) < width * height
  {
    MulMono(width, y + 1, height);
  }

  /** `rect[(x, y)]`: the pixel, or the panic of `Index::index`. */
  function RectIndex(pixels: seq<Pixel>, width: nat, height: nat, x: int, y: int): Run<Pixel>
  {
    if x < 0 || y < 0 || x >= width || y >= height then Panics(INDEX_EXPECT)
    else if Flat(x, y, width) < |pixels| then Returns(pixels[Flat(x, y, width)])
    else Panics(OUT_OF_BOUNDS)
  }

  /** `GfxRectangle`: `width * height` pixels, row by row. */
  class GfxRectangle {
    var buf: seq<Pixel>
    const width: u32
    const height: u32

    ghost predicate Valid()
      reads this
    {
      width * height < U32_LIMIT && |buf| == width * height
    }

    constructor Make(width: u32, height: u32, buf: seq<Pixel>)
      requires width * height < U32_LIMIT && |buf| == width * height
      ensures Valid() && this.width == width && this.height == height && this.buf == buf
    {
      this.width := width;
      this.height := height;
      this.buf := buf;
    }

    /** `GfxRectangle::blank`: every pixel `BLANK`; the `u32` product of
        the dimensions is checked. */
    static method Blank(width: u32, height: u32) returns (r: Run<GfxRectangle>)
      ensures r.Panics? <==> width * height >= U32_LIMIT
      ensures r.Panics? ==> r.reason == MUL_OVERFLOW
      ensures r.Returns? ==>
        && fresh(r.value) && r.value.Valid()
        && r.value.width == width && r.value.height == height
        && forall x: u32, y: u32 :: x < width && y < height ==> r.value.Get(x, y) == Some(BLANK)
    {
      if width * height >= U32_LIMIT {
        return Panics(MUL_OVERFLOW);
      }
      var rect := new GfxRectangle.Make(width, height, Repeat(BLANK, width * height));
      forall x: u32, y: u32 | x < width && y < height
        ensures rect.Get(x, y) == Some(BLANK)
      {
        FlatInRange(x, y, width, height);
      }
      return Returns(rect);
    }

    /** `GfxRectangle::get`: `None` off the rectangle, else the pixel at
        `y * width + x`. */
    function Get(x: u32, y: u32): (r: Option<Pixel>)
      requires Valid()
      reads this
      ensures r.None? <==> x >= width || y >= height
      ensures r.Some? ==> Flat(x, y, width) < |buf| && r.value == buf[Flat(x, y, width)]
    {
      if x >= width || y >= height then None
      else
        FlatInRange(x, y, width, height);
        Some(buf[Flat(x, y, width)])
    }

    /** `rect[(x, y)] = p` (`IndexMut`): sets that pixel and no other, and
        panics off the rectangle. */
    method Set(x: u32, y: u32, p: Pixel) returns (r: Run<()>)
      requires Valid()
      modifies this
      ensures Valid()
      ensures r.Panics? <==> x >= width || y >= height
      ensures r.Returns? ==> Get(x, y) == Some(p)
      ensures forall x': u32, y': u32 :: (x' != x || y' != y) ==> Get(x', y') == old(Get(x', y'))
    {
      if x >= width || y >= height {
        return Panics(INDEX_EXPECT);
      }
      FlatInRange(x, y, width, height);
      buf := buf[Flat(x, y, width) := p];
      forall x': u32, y': u32 | (x' != x || y' != y) && x' < width && y' < height
        ensures Flat(x', y', width) != Flat(x, y, width)
      {
        if Flat(x', y', width) == Flat(x, y, width) {
          FlatInjective(x, y, x', y', width);
        }
      }
      return Returns(());
    }

    /** `GfxRectangle::with`: a blank rectangle whose every pixel `(x, y)`
        is then set to `f(x, y)`, row by row. */
    static method With(width: u32, height: u32, f: (nat, nat) -> Pixel) returns (r: Run<GfxRectangle>)
      ensures r.Panics? <==> width * height >= U32_LIMIT
      ensures r.Panics? ==> r.reason == MUL_OVERFLOW
      ensures r.Returns? ==>
        && fresh(r.value) && r.value.Valid()
        && r.value.width == width && r.value.height == height
        && (forall x: u32, y: u32 :: x < width && y < height ==> r.value.Get(x, y) == Some(f(x, y)))
        && r.value.buf == RectOf(width, height, f)
    {
      var blank := Blank(width, height);
      if blank.Panics? {
        return blank;
      }
      var s := blank.value;
      for y: u32 := 0 to height
        invariant s.Valid() && s.width == width && s.height == height
        invariant forall x': u32, y': u32 :: x' < width && y' < y ==> s.Get(x', y') == Some(f(x', y'))
      {
        for x: u32 := 0 to width
          invariant s.Valid() && s.width == width && s.height == height
          invariant forall x': u32, y': u32 :: x' < width && y' < y ==> s.Get(x', y') == Some(f(x', y'))
          invariant forall x': u32 :: x' < x ==> s.Get(x', y) == Some(f(x', y))
        {
          var _ := s.Set(x, y, f(x, y));
        }
      }
      s.AllSetIsRectOf(f);
      return Returns(s);
    }

    /** A rectangle whose every pixel `(x, y)` is `f(x, y)` holds exactly
        `RectOf(width, height, f)`. */
    lemma AllSetIsRectOf(f: (nat, nat) -> Pixel)
      requires Valid()
      requires forall x: u32, y: u32 :: x < width && y < height ==> Get(x, y) == Some(f(x, y))
      ensures buf == RectOf(width, height, f)
    {
      var r := RectOf(width, height, f);
      forall i | 0 <= i < |buf|
        ensures buf[i] == r[i]
      {
        PlaceIsSet(f, i);
      }
    }

    /** Place `i` holds what `f` gives its pixel. */
    lemma PlaceIsSet(f: (nat, nat) -> Pixel, i: nat)
      requires Valid() && i < |buf|
      requires forall x: u32, y: u32 :: x < width && y < height ==> Get(x, y) == Some(f(x, y))
      ensures buf[i] == f(Col(i, width), Row(i, width))
    {
      var x: u32, y: u32 := Unflatten(i, width, height);
      FlatInRange(x, y, width, height);
      assert Get(x, y) == Some(f(x, y));
    }
  }

  /** The pixels of a `width` by `height` rectangle whose pixel `(x, y)` is
      `f(x, y)`, row by row. */
  function RectOf(width: nat, height: nat, f: (nat, nat) -> Pixel): (r: seq<Pixel>)
    ensures |r| == width * height
  {
    seq(width * height, i requires 0 <= i < width * height => f(Col(i, width), Row(i, width)))
  }

  /** The column of place `i` in rows of `width` pixels. */
  function Col(i: nat, width: nat): nat
  {
    if width == 0 then 0 else i % width
  }

  /** The row of place `i` in rows of `width` pixels. */
  function Row(i: nat, width: nat): nat
  {
    if width == 0 then 0 else i / width
  }

  /** Place `i` of a `width` by `height` rectangle is pixel `(Col(i,
      width), Row(i, width))`. */
  lemma Unflatten(i: nat, width: nat, height: nat) returns (x: nat, y: nat)
    requires i < width * height
    ensures x == Col(i, width) && y == Row(i, width)
    ensures x < width && y < height && Flat(x, y, width) == i
  {
    x, y := i % width, i / width;
    if y >= height {
      MulMono(width, height, y);
    }
  }

  /** Different pixels of a rectangle have different places. */
  lemma FlatInjective(x: nat, y: nat, x': nat, y': nat, width: nat)
    requires x < width && x' < width && Flat(x, y, width) == Flat(x', y', width)
    ensures x == x' && y == y'
  {
    DivModUnique(Flat(x, y, width), width, y, x);
    DivModUnique(Flat(x', y', width), width, y', x');
  }

  /** `x as i32` for a `u32`: values from 2^31 on wrap to negatives. */
  function AsI32(x: u32): int
  {
    if x < I32_LIMIT then x else x - U32_LIMIT
  }

  /** The part of the screen a blit covers: `xstart..xend` by
      `ystart..yend`, and the offsets into the rectangle of its top-left
      corner. */
  datatype Clip = Clip(xstart: nat, ystart: nat, xend: int, yend: int, xoff: nat, yoff: nat)

  /** The clipping of `blit`, in `i32` arithmetic: the start is clamped at
      0, the end at the screen size; the offsets `xstart - coords.0` and
      `ystart - coords.1` overflow for a coordinate of `i32::MIN`, and
      `coords + size` is a checked addition. */
  function Clipping(width: u32, height: u32, rw: u32, rh: u32, cx: i32, cy: i32): Run<Clip>
  {
    var xstart := if cx < 0 then 0 else cx;
    var ystart := if cy < 0 then 0 else cy;
    var xsum := cx + AsI32(rw);
    var ysum := cy + AsI32(rh);
    if cx == I32_MIN || cy == I32_MIN then Panics(SUB_OVERFLOW)
    else if !(I32_MIN <= xsum < I32_LIMIT) || !(I32_MIN <= ysum < I32_LIMIT) then Panics(ADD_OVERFLOW)
    else
      var xend := if xsum < AsI32(width) then xsum else AsI32(width);
      var yend := if ysum < AsI32(height) then ysum else AsI32(height);
      Returns(Clip(xstart, ystart, xend, yend, xstart - cx, ystart - cy))
  }

  /** Channels that are whole, byte-aligned bytes: the only formats the
      default `blit` draws to. */
  predicate ByteChannels(f: PixelFormat)
  {
    f.redWidth == 8 && f.greenWidth == 8 && f.blueWidth == 8
    && f.redShift % 8 == 0 && f.greenShift % 8 == 0 && f.blueShift % 8 == 0
  }

  /** What the drawing loops of `blit` need: the memory layout, the byte
      offset of each channel, the rectangle and the clipping. */
  datatype Job = Job(stride: nat, bpp: nat, ro: nat, go: nat, bo: nat,
                     pixels: seq<Pixel>, rw: nat, rh: nat, xs: nat, ys: nat, xoff: nat, yoff: nat)

  function JobOf(info: FramebufferInfo, pixels: seq<Pixel>, rw: u32, rh: u32, c: Clip): Job
  {
    Job(info.stride, info.bytesPerPixel, info.format.redShift / 8, info.format.greenShift / 8, info.format.blueShift / 8,
        pixels, rw, rh, c.xstart, c.ystart, c.xoff, c.yoff)
  }

  /** `fby * stride + fbx * bytes_per_pixel`. */
  function PixelOffset(j: Job, fx: nat, fy: nat): nat
  {
    fy * j.stride + fx * j.bpp
  }

  /** One turn of the inner loop: screen pixel `(fx, fy)` gets rectangle
      pixel `(fx - xs + xoff, fy - ys + yoff)` unless its alpha is 0; the
      red, green and blue bytes are written in that order. */
  function PaintPixel(j: Job, buf: seq<u8>, fx: nat, fy: nat): Run<seq<u8>>
  {
    match RectIndex(j.pixels, j.rw, j.rh, fx - j.xs + j.xoff, fy - j.ys + j.yoff)
    case Panics(m) => Panics(m)
    case Returns(p) =>
      if p.a == 0 then Returns(buf)
      else
        var base := PixelOffset(j, fx, fy);
        if base + j.ro >= |buf| || base + j.go >= |buf| || base + j.bo >= |buf| then Panics(OUT_OF_BOUNDS)
        else Returns(buf[base + j.ro := p.r][base + j.go := p.g][base + j.bo := p.b])
  }

  /** The inner loop from column `fx` to `xe`. */
  function PaintRow(j: Job, buf: seq<u8>, fy: nat, fx: nat, xe: nat): Run<seq<u8>>
    decreases xe - fx
  {
    if fx >= xe then Returns(buf)
    else match PaintPixel(j, buf, fx, fy)
      case Panics(m) => Panics(m)
      case Returns(b) => PaintRow(j, b, fy, fx + 1, xe)
  }

  /** The outer loop from row `fy` to `ye`. */
  function PaintRows(j: Job, buf: seq<u8>, fy: nat, ye: nat, xs: nat, xe: nat): Run<seq<u8>>
    decreases ye - fy
  {
    if fy >= ye then Returns(buf)
    else match PaintRow(j, buf, fy, xs, xe)
      case Panics(m) => Panics(m)
      case Returns(b) => PaintRows(j, b, fy + 1, ye, xs, xe)
  }

  /** The default `Framebuffer::blit` of the rectangle at `(cx, cy)`: the
      framebuffer memory afterwards. */
  function BlitSpec(info: FramebufferInfo, buf: seq<u8>, pixels: seq<Pixel>, rw: u32, rh: u32, cx: i32, cy: i32): Run<seq<u8>>
  {
    match Clipping(info.width, info.height, rw, rh, cx, cy)
    case Panics(m) => Panics(m)
    case Returns(c) =>
      if c.xend <= c.xstart || c.yend <= c.ystart then Returns(buf)
      else if !ByteChannels(info.format) then Returns(buf)
      else PaintRows(JobOf(info, pixels, rw, rh, c), buf, c.ystart, c.yend, c.xstart, c.xend)
  }

  /** A layout in which distinct pixels and channels have distinct bytes:
      at least one byte per pixel, the three channel offsets distinct and
      inside a pixel, and whole rows of pixels inside the stride. */
  predicate Separated(stride: nat, bpp: nat, width: nat, ro: nat, go: nat, bo: nat)
  {
    bpp > 0 && ro < bpp && go < bpp && bo < bpp && ro != go && go != bo && ro != bo
    && width * bpp <= stride
  }

  /** Byte `k` of a framebuffer with `stride` and `bpp` is byte `c` of
      pixel `(fx, fy)`. */
  function Locate(stride: nat, bpp: nat, k: nat): (r: (nat, nat, nat))
    requires stride > 0 && bpp > 0
  {
    ((k % stride) / bpp, k / stride, (k % stride) % bpp)
  }

  /** Within whole rows, `Locate` inverts the byte offset of a pixel's
      channel. */
  lemma LocateOffset(stride: nat, bpp: nat, fx: nat, fy: nat, c: nat)
    requires bpp > 0 && c < bpp && (fx + 1) * bpp <= stride
    ensures Locate(stride, bpp, fy * stride + fx * bpp + c) == (fx, fy, c)
  {
    MulAdd(bpp, fx, 1);
    DivModUnique(fy * stride + fx * bpp + c, stride, fy, fx * bpp + c);
    DivModUnique(fx * bpp + c, bpp, fx, c);
  }

  /** Every byte is at the offset of what `Locate` says it is. */
  lemma OffsetOfLocate(stride: nat, bpp: nat, k: nat)
    requires stride > 0 && bpp > 0
    ensures var (fx, fy, c) := Locate(stride, bpp, k); k == fy * stride + fx * bpp + c
  {
  }

  /** The value the loops leave in byte `k` when they cover screen rows
      `y0..y1` and columns `x0..x1`: the channel of the opaque pixel that
      byte belongs to, or nothing. */
  function Hit(j: Job, k: nat, y0: int, y1: int, x0: int, x1: int): Option<u8>
  {
    if j.stride == 0 || j.bpp == 0 then None
    else
      var (fx, fy, c) := Locate(j.stride, j.bpp, k);
      if !(y0 <= fy < y1 && x0 <= fx < x1) then None
      else match RectIndex(j.pixels, j.rw, j.rh, fx - j.xs + j.xoff, fy - j.ys + j.yoff)
        case Panics(_) => None
        case Returns(p) => PixelChannel(j, p, c)
  }

  /** `buf` with the rows `y0..y1` and columns `x0..x1` painted. */
  function Painted(j: Job, buf: seq<u8>, y0: int, y1: int, x0: int, x1: int): (r: seq<u8>)
    ensures |r| == |buf|
  {
    seq(|buf|, k requires 0 <= k < |buf| => match Hit(j, k, y0, y1, x0, x1) case Some(v) => v case None => buf[k])
  }

  /** Painting two adjacent column ranges paints their union. */
  lemma PaintedColumns(j: Job, buf: seq<u8>, y0: int, y1: int, x0: int, xm: int, x1: int)
    requires x0 <= xm <= x1
    ensures Painted(j, Painted(j, buf, y0, y1, x0, xm), y0, y1, xm, x1) == Painted(j, buf, y0, y1, x0, x1)
  {
  }

  /** Painting two adjacent row ranges paints their union. */
  lemma PaintedRows(j: Job, buf: seq<u8>, y0: int, ym: int, y1: int, x0: int, x1: int)
    requires y0 <= ym <= y1
    ensures Painted(j, Painted(j, buf, y0, ym, x0, x1), ym, y1, x0, x1) == Painted(j, buf, y0, y1, x0, x1)
  {
  }

  /** The conditions under which the loops over rows `..ye` and columns
      `..xe` stay inside the buffer and the rectangle. */
  predicate Fits(j: Job, size: nat, ye: nat, xe: nat)
  {
    Separated(j.stride, j.bpp, xe, j.ro, j.go, j.bo)
    && ye * j.stride <= size
    && |j.pixels| == j.rw * j.rh
    && xe + j.xoff <= j.rw + j.xs && ye + j.yoff <= j.rh + j.ys
  }

  /** One opaque pixel changes exactly its three channel bytes. */
  lemma {:induction false} PaintPixelMeaning(j: Job, buf: seq<u8>, fx: nat, fy: nat, xe: nat, ye: nat)
    requires Fits(j, |buf|, ye, xe) && j.xs <= fx < xe && j.ys <= fy < ye
    ensures PaintPixel(j, buf, fx, fy) == Returns(Painted(j, buf, fy, fy + 1, fx, fx + 1))
  {
    var rx, ry := fx - j.xs + j.xoff, fy - j.ys + j.yoff;
    FlatInRange(rx, ry, j.rw, j.rh);
    var p := j.pixels[Flat(rx, ry, j.rw)];
    var base := PixelOffset(j, fx, fy);
    PixelInBuffer(j, |buf|, fx, fy, xe, ye);
    if p.a != 0 {
      var out := buf[base + j.ro := p.r][base + j.go := p.g][base + j.bo := p.b];
      LocateOffset(j.stride, j.bpp, fx, fy, j.ro);
      LocateOffset(j.stride, j.bpp, fx, fy, j.go);
      LocateOffset(j.stride, j.bpp, fx, fy, j.bo);
      forall k | 0 <= k < |buf|
        ensures out[k] == Painted(j, buf, fy, fy + 1, fx, fx + 1)[k]
      {
        OffsetOfLocate(j.stride, j.bpp, k);
      }
      assert out == Painted(j, buf, fy, fy + 1, fx, fx + 1);
    } else {
      assert buf == Painted(j, buf, fy, fy + 1, fx, fx + 1);
    }
  }

  /** The bytes of a pixel inside the loops' range lie inside its row and
      inside the buffer. */
  lemma PixelInBuffer(j: Job, size: nat, fx: nat, fy: nat, xe: nat, ye: nat)
    requires Fits(j, size, ye, xe) && fx < xe && fy < ye
    ensures (fx + 1) * j.bpp <= j.stride && PixelOffset(j, fx, fy) + j.bpp <= size
  {
    MulMono(j.bpp, fx + 1, xe);
    MulMono(j.stride, fy + 1, ye);
    MulAdd(j.bpp, fx, 1);
    MulAdd(j.stride, fy, 1);
  }

  /** The inner loop paints columns `fx..xe` of row `fy`. */
  lemma {:induction false} PaintRowMeaning(j: Job, buf: seq<u8>, fy: nat, fx: nat, xe: nat, ye: nat)
    requires Fits(j, |buf|, ye, xe) && j.xs <= fx && j.ys <= fy < ye
    ensures PaintRow(j, buf, fy, fx, xe) == Returns(Painted(j, buf, fy, fy + 1, fx, xe))
    decreases xe - fx
  {
    if fx < xe {
      PaintPixelMeaning(j, buf, fx, fy, xe, ye);
      var b := Painted(j, buf, fy, fy + 1, fx, fx + 1);
      PaintRowMeaning(j, b, fy, fx + 1, xe, ye);
      PaintedColumns(j, buf, fy, fy + 1, fx, fx + 1, xe);
    } else {
      assert buf == Painted(j, buf, fy, fy + 1, fx, xe);
    }
  }

  /** The outer loop paints rows `fy..ye`, columns `xs..xe`. */
  lemma {:induction false} PaintRowsMeaning(j: Job, buf: seq<u8>, fy: nat, ye: nat, xe: nat)
    requires Fits(j, |buf|, ye, xe) && j.ys <= fy
    ensures PaintRows(j, buf, fy, ye, j.xs, xe) == Returns(Painted(j, buf, fy, ye, j.xs, xe))
    decreases ye - fy
  {
    if fy < ye {
      PaintRowMeaning(j, buf, fy, j.xs, xe, ye);
      var b := Painted(j, buf, fy, fy + 1, j.xs, xe);
      PaintRowsMeaning(j, b, fy + 1, ye, xe);
      PaintedRows(j, buf, fy, fy + 1, ye, j.xs, xe);
    } else {
      assert buf == Painted(j, buf, fy, ye, j.xs, xe);
    }
  }

  /** The reference meaning of a blit, in screen terms: byte `k` belongs
      to channel `c` of screen pixel `(fx, fy)`; when that pixel is on the
      screen and on the rectangle placed at `(cx, cy)`, and rectangle pixel
      `(fx - cx, fy - cy)` is not fully transparent, the byte takes that
      pixel's channel; every other byte keeps its value. */
  function Blitted(info: FramebufferInfo, buf: seq<u8>, pixels: seq<Pixel>, rw: nat, rh: nat, cx: int, cy: int): (r: seq<u8>)
    ensures |r| == |buf|
  {
    seq(|buf|, k requires 0 <= k < |buf| =>
      if info.stride == 0 || info.bytesPerPixel == 0 then buf[k]
      else
        var (fx, fy, c) := Locate(info.stride, info.bytesPerPixel, k);
        if fx < info.width && fy < info.height && cx <= fx < cx + rw && cy <= fy < cy + rh
           && Flat(fx - cx, fy - cy, rw) < |pixels| && pixels[Flat(fx - cx, fy - cy, rw)].a != 0
        then
          var p := pixels[Flat(fx - cx, fy - cy, rw)];
          if c == info.format.redShift / 8 then p.r
          else if c == info.format.greenShift / 8 then p.g
          else if c == info.format.blueShift / 8 then p.b
          else buf[k]
        else buf[k])
  }

  /** The default `blit` on a framebuffer whose memory holds `height` rows
      of `stride` bytes, with distinct byte-aligned channels inside each
      pixel: it never panics unless a coordinate is `i32::MIN` or `coords +
      size` overflows an `i32` (see `ClipPanics`), and
      it writes exactly what `Blitted` says: only on-screen, opaque pixels
      of the rectangle, at their screen place, and only their red, green
      and blue bytes. With channels that are not whole bytes it writes
      nothing. */
  lemma {:induction false} BlitMeaning(info: FramebufferInfo, buf: seq<u8>, pixels: seq<Pixel>, rw: u32, rh: u32, cx: i32, cy: i32)
    requires rw < I32_LIMIT && rh < I32_LIMIT && info.width < I32_LIMIT && info.height < I32_LIMIT
    requires |pixels| == rw * rh && info.height * info.stride <= |buf|
    requires ByteChannels(info.format) ==> Separated(info.stride, info.bytesPerPixel, info.width,
      info.format.redShift / 8, info.format.greenShift / 8, info.format.blueShift / 8)
    ensures Clipping(info.width, info.height, rw, rh, cx, cy).Returns? ==>
      BlitSpec(info, buf, pixels, rw, rh, cx, cy)
        == Returns(if ByteChannels(info.format) then Blitted(info, buf, pixels, rw, rh, cx, cy) else buf)
  {
    var clip := Clipping(info.width, info.height, rw, rh, cx, cy);
    if clip.Returns? && ByteChannels(info.format) {
      var c := clip.value;
      var j := JobOf(info, pixels, rw, rh, c);
      if c.xend <= c.xstart || c.yend <= c.ystart {
        assert Blitted(info, buf, pixels, rw, rh, cx, cy) == buf;
      } else {
        MulMono(info.stride, c.yend, info.height);
        MulMono(info.bytesPerPixel, c.xend, info.width);
        assert Fits(j, |buf|, c.yend, c.xend);
        PaintRowsMeaning(j, buf, c.ystart, c.yend, c.xend);
        forall k | 0 <= k < |buf|
          ensures Painted(j, buf, c.ystart, c.yend, c.xstart, c.xend)[k] == Blitted(info, buf, pixels, rw, rh, cx, cy)[k]
        {
          PaintedIsBlitted(info, buf, pixels, rw, rh, cx, cy, k);
        }
        assert Painted(j, buf, c.ystart, c.yend, c.xstart, c.xend) == Blitted(info, buf, pixels, rw, rh, cx, cy);
      }
    }
  }

  /** The clipping panics exactly when the offset of a coordinate of
      `i32::MIN` overflows (checked first, for both axes) or when a
      coordinate plus the rectangle's size, as `i32`, leaves the `i32`
      range. */
  lemma ClipPanics(width: u32, height: u32, rw: u32, rh: u32, cx: i32, cy: i32)
    ensures Clipping(width, height, rw, rh, cx, cy).Panics? <==>
      cx == I32_MIN || cy == I32_MIN || !(I32_MIN <= cx + AsI32(rw) < I32_LIMIT) || !(I32_MIN <= cy + AsI32(rh) < I32_LIMIT)
    ensures cx == I32_MIN || cy == I32_MIN ==> Clipping(width, height, rw, rh, cx, cy) == Panics(SUB_OVERFLOW)
    ensures Clipping(width, height, rw, rh, cx, cy).Panics? && cx != I32_MIN && cy != I32_MIN ==>
      Clipping(width, height, rw, rh, cx, cy) == Panics(ADD_OVERFLOW)
  {
  }

  /** The clipped ranges are the screen pixels the rectangle covers, and
      the rectangle's offsets turn a screen pixel into its place in the
      rectangle. */
  lemma ClipMeaning(width: u32, height: u32, rw: u32, rh: u32, cx: i32, cy: i32, fx: nat, fy: nat)
    requires rw < I32_LIMIT && rh < I32_LIMIT && width < I32_LIMIT && height < I32_LIMIT
    requires Clipping(width, height, rw, rh, cx, cy).Returns?
    ensures var c := Clipping(width, height, rw, rh, cx, cy).value;
      && (c.ystart <= fy < c.yend && c.xstart <= fx < c.xend
          <==> fx < width && fy < height && cx <= fx < cx + rw && cy <= fy < cy + rh)
      && fx - c.xstart + c.xoff == fx - cx && fy - c.ystart + c.yoff == fy - cy
  {
  }

  /** One byte of `BlitMeaning`: the loops' clipped ranges select the same
      screen pixels as the reference. */
  lemma PaintedIsBlitted(info: FramebufferInfo, buf: seq<u8>, pixels: seq<Pixel>, rw: u32, rh: u32, cx: i32, cy: i32, k: nat)
    requires rw < I32_LIMIT && rh < I32_LIMIT && info.width < I32_LIMIT && info.height < I32_LIMIT
    requires |pixels| == rw * rh && k < |buf|
    requires Clipping(info.width, info.height, rw, rh, cx, cy).Returns?
    ensures var c := Clipping(info.width, info.height, rw, rh, cx, cy).value;
      Painted(JobOf(info, pixels, rw, rh, c), buf, c.ystart, c.yend, c.xstart, c.xend)[k]
        == Blitted(info, buf, pixels, rw, rh, cx, cy)[k]
  {
    var c := Clipping(info.width, info.height, rw, rh, cx, cy).value;
    var j := JobOf(info, pixels, rw, rh, c);
    var hit := Hit(j, k, c.ystart, c.yend, c.xstart, c.xend);
    var blitted := Blitted(info, buf, pixels, rw, rh, cx, cy)[k];
    assert Painted(j, buf, c.ystart, c.yend, c.xstart, c.xend)[k] == if hit.Some? then hit.value else buf[k];
    if info.stride == 0 || info.bytesPerPixel == 0 {
      assert hit == None && blitted == buf[k];
    } else {
      var (fx, fy, ch) := Locate(info.stride, info.bytesPerPixel, k);
      ClipMeaning(info.width, info.height, rw, rh, cx, cy, fx, fy);
      if fx < info.width && fy < info.height && cx <= fx < cx + rw && cy <= fy < cy + rh {
        FlatInRange(fx - cx, fy - cy, rw, rh);
        var p := pixels[Flat(fx - cx, fy - cy, rw)];
        assert RectIndex(pixels, rw, rh, fx - cx, fy - cy) == Returns(p);
        assert hit == PixelChannel(j, p, ch);
        assert blitted == (match PixelChannel(j, p, ch) case Some(v) => v case None => buf[k]);
      } else {
        assert hit == None && blitted == buf[k];
      }
    }
  }

  /** The byte `blit` writes for channel `c` of pixel `p`, if any. */
  function PixelChannel(j: Job, p: Pixel, c: nat): Option<u8>
  {
    if p.a == 0 then None
    else if c == j.ro then Some(p.r)
    else if c == j.go then Some(p.g)
    else if c == j.bo then Some(p.b)
    else None
  }

  /** `NullFramebuffer`: no pixels and no memory. Its `blit` does nothing,
      and the default `blit` on its info would draw nothing either. */
  lemma NullDrawsNothing(pixels: seq<Pixel>, rw: u32, rh: u32, cx: i32, cy: i32)
    requires Clipping(0, 0, rw, rh, cx, cy).Returns?
    ensures NULL_INFO.width == 0 && NULL_INFO.height == 0 && NULL_INFO.bufferLen == 0
    ensures BlitSpec(NULL_INFO, [], pixels, rw, rh, cx, cy) == Returns([])
  {
  }

  /** A framebuffer: its info and its memory. */
  class Screen {
    const info: FramebufferInfo
    const mem: array<u8>

    constructor (info: FramebufferInfo, contents: seq<u8>)
      ensures this.info == info && fresh(mem) && mem[..] == contents
    {
      this.info := info;
      mem := new u8[|contents|](i requires 0 <= i < |contents| => contents[i]);
    }

    /** The default `Framebuffer::blit`, with its two loops. */
    method Blit(rect: GfxRectangle, cx: i32, cy: i32) returns (r: Run<()>)
      requires rect.Valid()
      modifies mem
      ensures r.Returns? ==> BlitSpec(info, old(mem[..]), rect.buf, rect.width, rect.height, cx, cy) == Returns(mem[..])
      ensures r.Panics? ==> BlitSpec(info, old(mem[..]), rect.buf, rect.width, rect.height, cx, cy) == Panics(r.reason)
    {
      var clip := Clipping(info.width, info.height, rect.width, rect.height, cx, cy);
      if clip.Panics? {
        return Panics(clip.reason);
      }
      var c := clip.value;
      if c.xend <= c.xstart || c.yend <= c.ystart {
        return Returns(());
      }
      if !ByteChannels(info.format) {
        return Returns(());
      }
      var j := JobOf(info, rect.buf, rect.width, rect.height, c);
      ghost var start := mem[..];
      var fby: nat := c.ystart;
      while fby < c.yend
        invariant PaintRows(j, mem[..], fby, c.yend, c.xstart, c.xend) == PaintRows(j, start, c.ystart, c.yend, c.xstart, c.xend)
        decreases c.yend - fby
      {
        ghost var rowStart := mem[..];
        var fbx: nat := c.xstart;
        while fbx < c.xend
          invariant PaintRow(j, mem[..], fby, fbx, c.xend) == PaintRow(j, rowStart, fby, c.xstart, c.xend)
          decreases c.xend - fbx
        {
          var r := DrawPixel(j, fbx, fby);
          if r.Panics? {
            return r;
          }
          fbx := fbx + 1;
        }
        fby := fby + 1;
      }
      return Returns(());
    }

    /** One turn of the inner loop of `blit`. */
    method DrawPixel(j: Job, fx: nat, fy: nat) returns (r: Run<()>)
      modifies mem
      ensures Outcome(r, mem[..]) == PaintPixel(j, old(mem[..]), fx, fy)
    {
      var pix := RectIndex(j.pixels, j.rw, j.rh, fx - j.xs + j.xoff, fy - j.ys + j.yoff);
      if pix.Panics? {
        return Panics(pix.reason);
      }
      var p := pix.value;
      if p.a == 0 {
        return Returns(());
      }
      var base := PixelOffset(j, fx, fy);
      if base + j.ro >= mem.Length || base + j.go >= mem.Length || base + j.bo >= mem.Length {
        return Panics(OUT_OF_BOUNDS);
      }
      mem[base + j.ro] := p.r;
      mem[base + j.go] := p.g;
      mem[base + j.bo] := p.b;
      return Returns(());
    }
  }
}
