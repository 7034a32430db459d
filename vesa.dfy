/** The kernel's VESA screen and its text console
    (`kernel/src/video/vesa.rs`): a framebuffer of `bytes_per_pixel`-byte
    pixels, `stride` pixels to a line, whose red, green and blue bytes are
    written and read pixel by pixel; a rectangle drawn pixel by pixel
    from a colour closure; and a console that scrolls the picture up by
    one glyph height when the cursor passes the last row. */
module Vesa {
  import opened Base
  import Framebuffer
  import Font
  import Text

  const SLICE_END: string := "range end index out of range for slice"
  const SUB_OVERFLOW: string := "attempt to subtract with overflow"
  const INDEX_OOB: string := "index out of bounds"

  /** One more than the largest 24-bit value. */
  const U24_LIMIT: nat := 0x100_0000

  /** The `Color` trait's two implementations: a byte triple and a word. */
  datatype Color = Rgb(r: u8, g: u8, b: u8) | Word(w: u32)

  /** `as_argb_u32`: `r << 16 | g << 8 | b` for a triple (the shifted
      bytes do not overlap, so the `|` is a sum), `w & 0x00FFFFFF` for a
      word. */
  function Argb(c: Color): (r: u32)
    ensures r < U24_LIMIT
  {
    match c
    case Rgb(r, g, b) => r * 0x1_0000 + g * 0x100 + b
    case Word(w) => w % U24_LIMIT
  }

  /** `u32::to_be_bytes`. */
  function BeBytes(x: u32): (r: seq<u8>)
    ensures |r| == 4
  {
    [(x / 0x100_0000) % 256, (x / 0x1_0000) % 256, (x / 0x100) % 256, x % 256]
  }

  /** `u32::from_be_bytes([a, r, g, b])`. */
  function FromBe(a: u8, r: u8, g: u8, b: u8): u32
  {
    a * 0x100_0000 + r * 0x1_0000 + g * 0x100 + b
  }

  /** The big-endian bytes of a word read back as that word. */
  lemma BeRoundTrip(x: u32)
    ensures FromBe(BeBytes(x)[0], BeBytes(x)[1], BeBytes(x)[2], BeBytes(x)[3]) == x
  {
    var d0, d1, d2, d3 := Framebuffer.Bytes(x);
  }

  /** A word built from four bytes splits back into those bytes. */
  lemma FromBeRoundTrip(a: u8, r: u8, g: u8, b: u8)
    ensures BeBytes(FromBe(a, r, g, b)) == [a, r, g, b]
  {
    var v := FromBe(a, r, g, b);
    DivModUnique(v, 0x100, a * 0x1_0000 + r * 0x100 + g, b);
    DivModUnique(v, 0x1_0000, a * 0x100 + r, g * 0x100 + b);
    DivModUnique(v, 0x100_0000, a, r * 0x1_0000 + g * 0x100 + b);
  }

  /** The colour word's top byte is zero; a triple's bytes follow it in
      order, and a word keeps its own low three bytes. */
  lemma ArgbBytes(c: Color)
    ensures BeBytes(Argb(c))[0] == 0
    ensures c.Rgb? ==> BeBytes(Argb(c)) == [0, c.r, c.g, c.b]
    ensures c.Word? ==> BeBytes(Argb(c))[1..] == BeBytes(c.w)[1..]
  {
    match c
    case Rgb(r, g, b) =>
      assert Argb(c) == FromBe(0, r, g, b);
      FromBeRoundTrip(0, r, g, b);
    case Word(w) =>
      WordLowBytes(w);
  }

  /** `w & 0x00FFFFFF` keeps the low three bytes of `w` under a zero top
      byte. */
  lemma WordLowBytes(w: u32)
    ensures BeBytes(w % U24_LIMIT) == [0] + BeBytes(w)[1..]
  {
    var d0, d1, d2, d3 := Framebuffer.Bytes(w);
    assert w % U24_LIMIT == FromBe(0, d2, d1, d0);
    FromBeRoundTrip(0, d2, d1, d0);
  }

  /** The fields of the bootloader's framebuffer description the screen
      reads. */
  datatype Info = Info(width: nat, height: nat, stride: nat, bpp: nat)

  /** `calculate_pixel_index`: the byte offset of pixel `(x, y)`. */
  function PixelIndex(info: Info, x: nat, y: nat): nat
  {
    (y * info.stride + x) * info.bpp
  }

  /** `buf[o..o + 3]` set to three bytes, one at a time. */
  function Put3(buf: seq<u8>, o: nat, bytes: seq<u8>): seq<u8>
    requires o + 3 <= |buf| && |bytes| == 3
  {
    buf[o := bytes[0]][o + 1 := bytes[1]][o + 2 := bytes[2]]
  }

  /** `draw_pixel`: nothing off the screen; otherwise the 4-byte slice at
      the pixel's offset (which panics past the buffer's end) gets bytes
      1 to 3 of the colour's big-endian word in its first three bytes. */
  function DrawPixelSpec(info: Info, buf: seq<u8>, x: nat, y: nat, color: Color): Run<seq<u8>>
  {
    if y >= info.height || x >= info.width then Returns(buf)
    else
      var o := PixelIndex(info, x, y);
      if o + 4 > |buf| then Panics(SLICE_END)
      else Returns(Put3(buf, o, BeBytes(Argb(color))[1..]))
  }

  /** `get_pixel`: `None` off the screen, otherwise the word of the four
      bytes `[r, g, b, a]` at the pixel's offset read as `[a, r, g, b]`. */
  function PixelAt(info: Info, buf: seq<u8>, x: nat, y: nat): Run<Option<u32>>
  {
    if y >= info.height || x >= info.width then Returns(None)
    else
      var o := PixelIndex(info, x, y);
      if o + 4 > |buf| then Panics(SLICE_END)
      else Returns(Some(FromBe(buf[o + 3], buf[o], buf[o + 1], buf[o + 2])))
  }

  /** Drawing an on-screen pixel whose slice fits writes the colour's
      red, green and blue bytes and leaves every other byte, the slice's
      fourth included, as it was; drawing off the screen changes
      nothing. */
  lemma DrawPixelMeaning(info: Info, buf: seq<u8>, x: nat, y: nat, color: Color)
    ensures y >= info.height || x >= info.width ==> DrawPixelSpec(info, buf, x, y, color) == Returns(buf)
    ensures DrawPixelSpec(info, buf, x, y, color).Panics? <==>
      x < info.width && y < info.height && PixelIndex(info, x, y) + 4 > |buf|
    ensures DrawPixelSpec(info, buf, x, y, color).Returns? && x < info.width && y < info.height ==>
      var after := DrawPixelSpec(info, buf, x, y, color).value;
      var o := PixelIndex(info, x, y);
      && |after| == |buf| && after[o..o + 3] == BeBytes(Argb(color))[1..]
      && forall i :: 0 <= i < |buf| && !(o <= i < o + 3) ==> after[i] == buf[i]
  {
  }

  /** After `draw_pixel(x, y, c)` on the screen, `get_pixel(x, y)` is the
      pixel's old fourth byte in the top byte over `c`'s 24-bit colour:
      `(a << 24) | (c & 0xFFFFFF)`. */
  lemma GetAfterDraw(info: Info, buf: seq<u8>, x: nat, y: nat, color: Color)
    requires x < info.width && y < info.height && PixelIndex(info, x, y) + 4 <= |buf|
    ensures DrawPixelSpec(info, buf, x, y, color).Returns?
    ensures PixelAt(info, DrawPixelSpec(info, buf, x, y, color).value, x, y) ==
      Returns(Some(buf[PixelIndex(info, x, y) + 3] * U24_LIMIT + Argb(color)))
  {
    ReadBack(buf, PixelIndex(info, x, y), color);
  }

  /** The four bytes at `o` after the colour's three are put there. */
  lemma ReadBack(buf: seq<u8>, o: nat, color: Color)
    requires o + 4 <= |buf|
    ensures var after := Put3(buf, o, BeBytes(Argb(color))[1..]);
      FromBe(after[o + 3], after[o], after[o + 1], after[o + 2]) == buf[o + 3] * U24_LIMIT + Argb(color)
  {
    var bytes := BeBytes(Argb(color));
    ArgbBytes(color);
    BeRoundTrip(Argb(color));
    var after := Put3(buf, o, bytes[1..]);
    assert after[o] == bytes[1] && after[o + 1] == bytes[2] && after[o + 2] == bytes[3] && after[o + 3] == buf[o + 3];
  }

  /** Pixels of a line of `stride` pixels, `bpp` bytes each: distinct
      on-screen pixels' first three bytes do not overlap when pixels are at
      least three bytes wide. */
  lemma Disjoint(info: Info, x: nat, y: nat, x': nat, y': nat)
    requires info.bpp >= 3 && x < info.stride && x' < info.stride && (x, y) != (x', y')
    ensures PixelIndex(info, x, y) + 3 <= PixelIndex(info, x', y') || PixelIndex(info, x', y') + 3 <= PixelIndex(info, x, y)
  {
    var k, k' := y * info.stride + x, y' * info.stride + x';
    if k == k' {
      Framebuffer.FlatInjective(x, y, x', y', info.stride);
    }
    if k < k' {
      MulMono(info.bpp, k + 1, k');
    } else {
      MulMono(info.bpp, k' + 1, k);
    }
  }

  /** The last pixel has the largest offset. */
  lemma LastPixelFarthest(info: Info, x: nat, y: nat)
    requires x < info.width <= info.stride && y < info.height
    ensures PixelIndex(info, x, y) <= PixelIndex(info, info.width - 1, info.height - 1)
  {
    MulMono(info.stride, y, info.height - 1);
    MulMono(info.bpp, y * info.stride + x, (info.height - 1) * info.stride + info.width - 1);
  }

  /** The closure `draw_rect_with` takes: a colour for pixel `(x, y)`,
      which may read the screen as it stands, or a panic. */
  type Colors = (nat, nat, seq<u8>) -> Run<Color>

  /** The inner loop of `draw_rect_with`: the pixels `px..xe` of line
      `py`, each coloured from the screen as it stands, then drawn. */
  function RowSpec(info: Info, buf: seq<u8>, py: nat, px: nat, xe: nat, colors: Colors): Run<seq<u8>>
    decreases xe - px
  {
    if px >= xe then Returns(buf)
    else
      match colors(px, py, buf)
      case Panics(m) => Panics(m)
      case Returns(c) =>
        match DrawPixelSpec(info, buf, px, py, c)
        case Panics(m) => Panics(m)
        case Returns(next) => RowSpec(info, next, py, px + 1, xe, colors)
  }

  /** The outer loop of `draw_rect_with`: lines `py..ye`. */
  function RowsSpec(info: Info, buf: seq<u8>, py: nat, ye: nat, xs: nat, xe: nat, colors: Colors): Run<seq<u8>>
    decreases ye - py
  {
    if py >= ye then Returns(buf)
    else
      match RowSpec(info, buf, py, xs, xe, colors)
      case Panics(m) => Panics(m)
      case Returns(next) => RowsSpec(info, next, py + 1, ye, xs, xe, colors)
  }

  /** `draw_rect_with(x, y, w, h, colors)`: lines `y..y + h`, top to
      bottom, each left to right. */
  function RectSpec(info: Info, buf: seq<u8>, x: nat, y: nat, w: nat, h: nat, colors: Colors): Run<seq<u8>>
  {
    RowsSpec(info, buf, y, y + h, x, x + w, colors)
  }

  /** The red, green and blue bytes of pixel `(x, y)`. */
  function RgbAt(info: Info, buf: seq<u8>, x: nat, y: nat): seq<u8>
  {
    var o := PixelIndex(info, x, y);
    if o + 3 <= |buf| then buf[o..o + 3] else []
  }

  /** Putting three bytes at `o` leaves any three bytes apart from them
      as they were. */
  lemma Put3Frame(buf: seq<u8>, o: nat, bytes: seq<u8>, k: nat)
    requires o + 3 <= |buf| && |bytes| == 3 && k + 3 <= |buf| && (k + 3 <= o || o + 3 <= k)
    ensures Put3(buf, o, bytes)[k..k + 3] == buf[k..k + 3]
  {
    var after := Put3(buf, o, bytes);
    assert after[k] == buf[k] && after[k + 1] == buf[k + 1] && after[k + 2] == buf[k + 2];
  }

  /** ... and the three bytes put there read back. */
  lemma Put3Here(buf: seq<u8>, o: nat, bytes: seq<u8>)
    requires o + 3 <= |buf| && |bytes| == 3
    ensures Put3(buf, o, bytes)[o..o + 3] == bytes
  {
    var after := Put3(buf, o, bytes);
    assert after[o] == bytes[0] && after[o + 1] == bytes[1] && after[o + 2] == bytes[2];
  }

  /** The framebuffer layout `scroll_down` relies on: pixels of at least
      three bytes, lines at least as long as the screen is wide, and the
      last pixel's 4-byte slice inside the buffer. */
  predicate Fits(info: Info, size: nat)
  {
    && info.bpp >= 3 && info.width <= info.stride
    && (info.width == 0 || info.height == 0 || PixelIndex(info, info.width - 1, info.height - 1) + 4 <= size)
  }

  /** The closure of `scroll_down`. */
  function ScrollColors(info: Info, fh: nat, bg: u32): Colors
  {
    (x: nat, y: nat, buf: seq<u8>) => ScrollColor(info, fh, bg, x, y, buf)
  }

  /** The colour `scroll_down` gives pixel `(x, y)`: the pixel one glyph
      height below, or the background colour below the screen. */
  function ScrollColor(info: Info, fh: nat, bg: u32, x: nat, y: nat, buf: seq<u8>): Run<Color>
  {
    match PixelAt(info, buf, x, y + fh)
    case Panics(m) => Panics(m)
    case Returns(None) => Returns(Word(bg))
    case Returns(Some(v)) => Returns(Word(v))
  }

  /** What scrolling up by `fh` lines puts at pixel `(x, y)`: the colour
      `fh` lines below it, or the background below the screen. */
  function Scrolled(info: Info, buf: seq<u8>, fh: nat, bg: u32, x: nat, y: nat): seq<u8>
  {
    if y + fh < info.height then RgbAt(info, buf, x, y + fh) else BeBytes(Argb(Word(bg)))[1..]
  }

  /** Pixel `(x, y)` comes before `(px, py)` in the order `draw_rect_with`
      visits them. */
  predicate Before(x: nat, y: nat, px: nat, py: nat)
  {
    y < py || (y == py && x < px)
  }

  /** Scrolling has reached pixel `(px, py)`: the pixels before it hold
      their scrolled colours, the others their colours in `start`. */
  ghost predicate Partial(info: Info, start: seq<u8>, buf: seq<u8>, fh: nat, bg: u32, py: nat, px: nat)
  {
    && |buf| == |start|
    && forall x: nat, y: nat :: x < info.width && y < info.height ==>
         RgbAt(info, buf, x, y) ==
           if Before(x, y, px, py) then Scrolled(info, start, fh, bg, x, y) else RgbAt(info, start, x, y)
  }

  /** One pixel of `scroll_down`: its closure reads a pixel not yet
      overwritten, so the pixel gets its scrolled colour, and no other
      pixel changes. */
  lemma ScrollPixel(info: Info, start: seq<u8>, buf: seq<u8>, fh: nat, bg: u32, py: nat, px: nat) returns (next: seq<u8>)
    requires Fits(info, |start|) && Partial(info, start, buf, fh, bg, py, px)
    requires px < info.width && py < info.height
    ensures ScrollColors(info, fh, bg)(px, py, buf).Returns?
    ensures DrawPixelSpec(info, buf, px, py, ScrollColors(info, fh, bg)(px, py, buf).value) == Returns(next)
    ensures Partial(info, start, next, fh, bg, py, px + 1)
  {
    var v := ScrollRead(info, buf, fh, bg, px, py);
    assert ScrollColors(info, fh, bg)(px, py, buf) == Returns(Word(v));
    if py + fh < info.height {
      assert !Before(px, py + fh, px, py);
      assert RgbAt(info, buf, px, py + fh) == RgbAt(info, start, px, py + fh);
    }
    assert Scrolled(info, buf, fh, bg, px, py) == Scrolled(info, start, fh, bg, px, py);
    LastPixelFarthest(info, px, py);
    next := Put3(buf, PixelIndex(info, px, py), BeBytes(Argb(Word(v)))[1..]);
    forall x: nat, y: nat | x < info.width && y < info.height
      ensures RgbAt(info, next, x, y) ==
        if Before(x, y, px + 1, py) then Scrolled(info, start, fh, bg, x, y) else RgbAt(info, start, x, y)
    {
      ScrollWritten(info, start, buf, fh, bg, py, px, BeBytes(Argb(Word(v)))[1..], x, y);
    }
  }

  /** The closure of `scroll_down` at an on-screen pixel gives the
      colour scrolling moves there. */
  lemma ScrollRead(info: Info, buf: seq<u8>, fh: nat, bg: u32, px: nat, py: nat) returns (v: u32)
    requires Fits(info, |buf|) && px < info.width && py < info.height
    ensures ScrollColor(info, fh, bg, px, py, buf) == Returns(Word(v))
    ensures BeBytes(Argb(Word(v)))[1..] == Scrolled(info, buf, fh, bg, px, py)
  {
    v := bg;
    if py + fh < info.height {
      var o := PixelIndex(info, px, py + fh);
      LastPixelFarthest(info, px, py + fh);
      v := FromBe(buf[o + 3], buf[o], buf[o + 1], buf[o + 2]);
      FromBeRoundTrip(buf[o + 3], buf[o], buf[o + 1], buf[o + 2]);
      assert PixelAt(info, buf, px, py + fh) == Returns(Some(v));
    } else {
      assert PixelAt(info, buf, px, py + fh) == Returns(None);
    }
    WordLowBytes(v);
  }

  /** After pixel `(px, py)` gets its scrolled colour, pixel `(x, y)`
      holds what `Partial` says for the next pixel. */
  lemma ScrollWritten(info: Info, start: seq<u8>, buf: seq<u8>, fh: nat, bg: u32, py: nat, px: nat, bytes: seq<u8>, x: nat, y: nat)
    requires Fits(info, |start|) && Partial(info, start, buf, fh, bg, py, px)
    requires px < info.width && py < info.height && x < info.width && y < info.height
    requires bytes == Scrolled(info, start, fh, bg, px, py) && |bytes| == 3
    ensures PixelIndex(info, px, py) + 3 <= |buf|
    ensures RgbAt(info, Put3(buf, PixelIndex(info, px, py), bytes), x, y) ==
      if Before(x, y, px + 1, py) then Scrolled(info, start, fh, bg, x, y) else RgbAt(info, start, x, y)
  {
    var o := PixelIndex(info, px, py);
    LastPixelFarthest(info, px, py);
    LastPixelFarthest(info, x, y);
    assert RgbAt(info, buf, x, y) ==
      if Before(x, y, px, py) then Scrolled(info, start, fh, bg, x, y) else RgbAt(info, start, x, y);
    if (x, y) == (px, py) {
      Put3Here(buf, o, bytes);
    } else {
      Disjoint(info, x, y, px, py);
      Put3Frame(buf, o, bytes, PixelIndex(info, x, y));
    }
  }

  /** A line of `scroll_down`, from pixel `px` on. */
  lemma {:induction false} ScrollRow(info: Info, start: seq<u8>, buf: seq<u8>, fh: nat, bg: u32, py: nat, px: nat)
    requires Fits(info, |start|) && Partial(info, start, buf, fh, bg, py, px)
    requires px <= info.width && py < info.height
    ensures RowSpec(info, buf, py, px, info.width, ScrollColors(info, fh, bg)).Returns?
    ensures Partial(info, start, RowSpec(info, buf, py, px, info.width, ScrollColors(info, fh, bg)).value, fh, bg, py + 1, 0)
    decreases info.width - px
  {
    if px < info.width {
      var next := ScrollPixel(info, start, buf, fh, bg, py, px);
      ScrollRow(info, start, next, fh, bg, py, px + 1);
    } else {
      forall x: nat, y: nat | x < info.width && y < info.height
        ensures Before(x, y, px, py) <==> Before(x, y, 0, py + 1)
      {
      }
    }
  }

  /** The lines of `scroll_down`, from line `py` on. */
  lemma {:induction false} ScrollRows(info: Info, start: seq<u8>, buf: seq<u8>, fh: nat, bg: u32, py: nat)
    requires Fits(info, |start|) && Partial(info, start, buf, fh, bg, py, 0) && py <= info.height
    ensures RowsSpec(info, buf, py, info.height, 0, info.width, ScrollColors(info, fh, bg)).Returns?
    ensures Partial(info, start, RowsSpec(info, buf, py, info.height, 0, info.width, ScrollColors(info, fh, bg)).value,
                    fh, bg, info.height, 0)
    decreases info.height - py
  {
    if py < info.height {
      ScrollRow(info, start, buf, fh, bg, py, 0);
      ScrollRows(info, start, RowSpec(info, buf, py, 0, info.width, ScrollColors(info, fh, bg)).value, fh, bg, py + 1);
    }
  }

  /** The rectangle `scroll_down` draws, over the whole screen, moves the
      picture up: on a framebuffer laid out as `Fits` says it does not
      panic, and every pixel ends with the colour that was `fh` lines
      below it, or the background colour where that is below the
      screen, although the closure reads the screen while it is being
      overwritten. */
  lemma ScrollMeaning(info: Info, buf: seq<u8>, fh: nat, bg: u32)
    requires Fits(info, |buf|)
    ensures RectSpec(info, buf, 0, 0, info.width, info.height, ScrollColors(info, fh, bg)).Returns?
    ensures var after := RectSpec(info, buf, 0, 0, info.width, info.height, ScrollColors(info, fh, bg)).value;
      && |after| == |buf|
      && forall x: nat, y: nat :: x < info.width && y < info.height ==>
           RgbAt(info, after, x, y) == Scrolled(info, buf, fh, bg, x, y)
  {
    ScrollRows(info, buf, buf, fh, bg, 0);
  }

  /** `Screen`: the framebuffer's description and its bytes. */
  class Screen {
    const info: Info
    const buffer: array<u8>

    /** `Screen::new`. */
    constructor (info: Info, contents: seq<u8>)
      ensures this.info == info && fresh(buffer) && buffer[..] == contents
    {
      this.info := info;
      buffer := new u8[|contents|](i requires 0 <= i < |contents| => contents[i]);
    }

    /** `get_pixel`. */
    function GetPixel(x: nat, y: nat): Run<Option<u32>>
      reads buffer
    {
      PixelAt(info, buffer[..], x, y)
    }

    /** `draw_pixel`. */
    method DrawPixel(x: nat, y: nat, color: Color) returns (r: Run<()>)
      modifies buffer
      ensures Outcome(r, buffer[..]) == DrawPixelSpec(info, old(buffer[..]), x, y, color)
    {
      if y >= info.height || x >= info.width {
        return Returns(());
      }
      var bytes := BeBytes(Argb(color));
      var o := PixelIndex(info, x, y);
      if o + 4 > buffer.Length {
        return Panics(SLICE_END);
      }
      Store3(o, bytes[1..]);
      return Returns(());
    }

    /** The three byte stores of `draw_pixel` at offset `o`. */
    method Store3(o: nat, bytes: seq<u8>)
      requires o + 3 <= buffer.Length && |bytes| == 3
      modifies buffer
      ensures buffer[..] == Put3(old(buffer[..]), o, bytes)
    {
      buffer[o] := bytes[0];
      buffer[o + 1] := bytes[1];
      buffer[o + 2] := bytes[2];
    }

    /** `draw_rect_with`, with its two loops. */
    method DrawRectWith(x: nat, y: nat, w: nat, h: nat, colors: Colors) returns (r: Run<()>)
      modifies buffer
      ensures Outcome(r, buffer[..]) == RectSpec(info, old(buffer[..]), x, y, w, h, colors)
    {
      ghost var start := buffer[..];
      var py := y;
      while py < y + h
        invariant y <= py <= y + h
        invariant RowsSpec(info, buffer[..], py, y + h, x, x + w, colors) == RectSpec(info, start, x, y, w, h, colors)
        decreases y + h - py
      {
        r := DrawRow(py, x, x + w, colors);
        if r.Panics? {
          return;
        }
        py := py + 1;
      }
      return Returns(());
    }

    /** One line of `draw_rect_with`: pixels `xs..xe` of line `py`. */
    method DrawRow(py: nat, xs: nat, xe: nat, colors: Colors) returns (r: Run<()>)
      modifies buffer
      ensures Outcome(r, buffer[..]) == RowSpec(info, old(buffer[..]), py, xs, xe, colors)
    {
      ghost var rowStart := buffer[..];
      var px := xs;
      while px < xe
        invariant xs <= px <= xe || (xe < xs && px == xs)
        invariant RowSpec(info, buffer[..], py, px, xe, colors) == RowSpec(info, rowStart, py, xs, xe, colors)
        decreases xe - px
      {
        var c := colors(px, py, buffer[..]);
        if c.Panics? {
          return Panics(c.reason);
        }
        r := DrawPixel(px, py, c.value);
        if r.Panics? {
          return;
        }
        px := px + 1;
      }
      return Returns(());
    }
  }

  /** The cursor's initial colours: white glyphs (the top byte is
      dropped when drawn) on black. */
  const FG: u32 := 0xFFFF_FFFF
  const BG: u32 := 0

  /** What stays fixed while the console writes: the screen's layout, the
      font, its glyph size and character map, the size in characters, the
      colours. */
  datatype Config = Config(info: Info, psf: seq<u8>, fw: nat, fh: nat, hasTable: bool, glyphs: map<nat, nat>,
                           rows: nat, columns: nat, fg: u32, bg: u32)

  /** What writing changes: the cursor and the framebuffer bytes. */
  datatype State = State(row: nat, col: nat, buf: seq<u8>)

  /** The closure of `write_glyph` for a glyph drawn at `(gx, gy)`. */
  function GlyphColors(bitmap: seq<u8>, bpr: nat, gx: nat, gy: nat, fg: u32, bg: u32): Colors
  {
    (x: nat, y: nat, buf: seq<u8>) => GlyphColor(bitmap, bpr, gx, gy, fg, bg, x, y)
  }

  /** The colour `write_glyph` gives pixel `(x, y)`: the foreground where
      the glyph's bit is set, the background elsewhere; the subtractions
      are checked and the bitmap index panics past its end. */
  function GlyphColor(bitmap: seq<u8>, bpr: nat, gx: nat, gy: nat, fg: u32, bg: u32, x: nat, y: nat): Run<Color>
  {
    if x < gx || y < gy then Panics(SUB_OVERFLOW)
    else
      var k := Text.BitmapIndex(bpr, x - gx, y - gy);
      if k >= |bitmap| then Panics(INDEX_OOB)
      else if Text.BitSet(bitmap[k], 7 - (x - gx) % 8) then Returns(Word(fg))
      else Returns(Word(bg))
  }

  /** `write_glyph`: a glyph id past the font draws nothing; otherwise the
      glyph is drawn in the cursor's cell and the cursor moves on,
      breaking the line when the row is full. */
  function GlyphStep(c: Config, st: State, gid: nat): Run<State>
  {
    match Font.GlyphBitmap(c.psf, gid)
    case Panics(m) => Panics(m)
    case Returns(Err(_)) => Returns(st)
    case Returns(Ok((bpr, bitmap))) => DrawGlyphStep(c, st, bpr, bitmap)
  }

  /** `write_glyph` once the glyph's bitmap is found. */
  function DrawGlyphStep(c: Config, st: State, bpr: nat, bitmap: seq<u8>): Run<State>
  {
    var gx, gy := st.col * c.fw, st.row * c.fh;
    match RectSpec(c.info, st.buf, gx, gy, c.fw, c.fh, GlyphColors(bitmap, bpr, gx, gy, c.fg, c.bg))
    case Panics(m) => Panics(m)
    case Returns(buf) =>
      if st.col + 1 >= c.columns then NewlineStep(c, State(st.row, st.col + 1, buf))
      else Returns(State(st.row, st.col + 1, buf))
  }

  /** `newline`: the start of the next line, scrolling when that is past
      the last row. */
  function NewlineStep(c: Config, st: State): Run<State>
  {
    if st.row + 1 >= c.rows then ScrollStep(c, State(st.row + 1, 0, st.buf))
    else Returns(State(st.row + 1, 0, st.buf))
  }

  /** `scroll_down`: the row goes back by one (a checked subtraction) and
      the picture moves up by a glyph height. */
  function ScrollStep(c: Config, st: State): Run<State>
  {
    if st.row == 0 then Panics(SUB_OVERFLOW)
    else
      match RectSpec(c.info, st.buf, 0, 0, c.info.width, c.info.height, ScrollColors(c.info, c.fh, c.bg))
      case Panics(m) => Panics(m)
      case Returns(buf) => Returns(State(st.row - 1, st.col, buf))
  }

  /** The cursor after a drawn glyph: the next column, or column 0 of the
      next row when the row is full, staying on the last row when there
      is no next one. */
  function NextCell(rows: nat, columns: nat, row: nat, col: nat): (r: (nat, nat))
  {
    if col + 1 < columns then (row, col + 1)
    else if row + 1 < rows then (row + 1, 0)
    else (row, 0)
  }

  /** A line break moves the cursor to column 0 of the next row, or keeps
      it on the row it is on when that is the last: scrolling takes the
      row back. */
  lemma NewlineCursor(c: Config, st: State)
    requires NewlineStep(c, st).Returns?
    ensures NewlineStep(c, st).value.col == 0
    ensures NewlineStep(c, st).value.row == if st.row + 1 < c.rows then st.row + 1 else st.row
  {
  }

  /** A glyph that is missing from the font changes nothing; a drawn one
      moves the cursor to the next cell. On a console of at least one
      row, a cursor on the screen stays on it. */
  lemma GlyphCursor(c: Config, st: State, gid: nat)
    requires GlyphStep(c, st, gid).Returns?
    ensures Font.GlyphBitmap(c.psf, gid).value.Err? ==> GlyphStep(c, st, gid).value == st
    ensures Font.GlyphBitmap(c.psf, gid).value.Ok? ==>
      var after := GlyphStep(c, st, gid).value;
      (after.row, after.col) == NextCell(c.rows, c.columns, st.row, st.col)
    ensures st.row < c.rows && st.col < c.columns ==>
      GlyphStep(c, st, gid).value.row < c.rows && GlyphStep(c, st, gid).value.col < c.columns
  {
    if Font.GlyphBitmap(c.psf, gid).value.Ok? && st.col + 1 >= c.columns {
      var (bpr, bitmap) := Font.GlyphBitmap(c.psf, gid).value.value;
      var gx, gy := st.col * c.fw, st.row * c.fh;
      var buf := RectSpec(c.info, st.buf, gx, gy, c.fw, c.fh, GlyphColors(bitmap, bpr, gx, gy, c.fg, c.bg)).value;
      NewlineCursor(c, State(st.row, st.col + 1, buf));
    }
  }

  /** On a framebuffer laid out as `Fits` says, scrolling with the cursor
      past the first row does not panic: the row goes back by one and
      every pixel gets the colour a glyph height below it, or the
      background at the bottom. */
  lemma ScrollStepMeaning(c: Config, st: State)
    requires Fits(c.info, |st.buf|) && st.row > 0
    ensures ScrollStep(c, st).Returns?
    ensures var after := ScrollStep(c, st).value;
      && after.row == st.row - 1 && after.col == st.col && |after.buf| == |st.buf|
      && forall x: nat, y: nat :: x < c.info.width && y < c.info.height ==>
           RgbAt(c.info, after.buf, x, y) == Scrolled(c.info, st.buf, c.fh, c.bg, x, y)
  {
    ScrollMeaning(c.info, st.buf, c.fh, c.bg);
  }

  function Glyphs(c: Config): (State, nat) -> Run<State>
  {
    (st: State, gid: nat) => GlyphStep(c, st, gid)
  }

  function Newlines(c: Config): State -> Run<State>
  {
    (st: State) => NewlineStep(c, st)
  }

  /** `str_to_glyphs` for one character, with the console's font. */
  function GlyphOfChar(c: Config): char -> nat
  {
    (ch: char) => Font.GlyphOf(c.hasTable, c.glyphs, ch)
  }

  /** `write_str`, read one character at a time: a newline breaks the
      line, scrolling past the last row, and any other character is drawn
      as its glyph. */
  function WriteSpec(c: Config, st: State, s: seq<char>): Run<State>
  {
    Text.RunOps(st, Text.CharOps(s, GlyphOfChar(c)), Glyphs(c), Newlines(c))
  }

  /** Whatever is written, a cursor on a screen of at least one row stays
      on the screen: the last row scrolls instead of moving down. */
  lemma {:induction false} CursorStaysOnScreen(c: Config, st: State, ops: seq<Text.Op>)
    requires st.row < c.rows && st.col < c.columns
    ensures Text.RunOps(st, ops, Glyphs(c), Newlines(c)).Returns? ==>
      var after := Text.RunOps(st, ops, Glyphs(c), Newlines(c)).value;
      after.row < c.rows && after.col < c.columns
    decreases |ops|
  {
    if ops != [] {
      var step := if ops[0].Newline? then NewlineStep(c, st) else GlyphStep(c, st, ops[0].gid);
      if step.Returns? {
        if ops[0].Newline? {
          NewlineCursor(c, st);
        } else {
          GlyphCursor(c, st, ops[0].gid);
        }
        CursorStaysOnScreen(c, step.value, ops[1..]);
      }
    }
  }

  /** `Console`: the screen, the glyph size it was made with, its size in
      characters and the cursor. */
  class Console {
    const screen: Screen
    const psf: seq<u8>
    const fw: nat
    const fh: nat
    const hasTable: bool
    const glyphs: map<nat, nat>
    const rows: nat
    const columns: nat
    var row: nat
    var col: nat
    const fg: u32
    const bg: u32

    /** `Console::new`: as many rows and columns of glyphs as fit the
        screen, the cursor at the top left. */
    constructor (screen: Screen, psf: seq<u8>)
      requires Font.ConsoleFont(psf)
      ensures this.screen == screen && this.psf == psf
      ensures fw == Font.Width(psf).value && fh == Font.Height(psf).value
      ensures hasTable == Font.HasUnicodeTable(psf).value && glyphs == Font.GlyphMap(psf).value
      ensures rows == screen.info.height / fh && columns == screen.info.width / fw
      ensures row == 0 && col == 0 && fg == FG && bg == BG
    {
      var width := Font.Width(psf).value;
      var height := Font.Height(psf).value;
      this.screen := screen;
      this.psf := psf;
      fw, fh := width, height;
      hasTable := Font.HasUnicodeTable(psf).value;
      glyphs := Font.GlyphMap(psf).value;
      rows := screen.info.height / height;
      columns := screen.info.width / width;
      row, col := 0, 0;
      fg, bg := FG, BG;
    }

    function Settings(): Config
    {
      Config(screen.info, psf, fw, fh, hasTable, glyphs, rows, columns, fg, bg)
    }

    function Snapshot(): State
      reads this, screen.buffer
    {
      State(row, col, screen.buffer[..])
    }

    /** `write_glyph`. */
    method WriteGlyph(gid: nat) returns (r: Run<()>)
      modifies this, screen.buffer
      ensures Outcome(r, Snapshot()) == GlyphStep(Settings(), old(Snapshot()), gid)
    {
      var g := Font.GlyphBitmap(psf, gid);
      if g.Panics? {
        return Panics(g.reason);
      }
      if g.value.Err? {
        return Returns(());
      }
      var (bpr, bitmap) := g.value.value;
      var gx, gy := col * fw, row * fh;
      r := screen.DrawRectWith(gx, gy, fw, fh, GlyphColors(bitmap, bpr, gx, gy, fg, bg));
      if r.Panics? {
        return;
      }
      col := col + 1;
      if col >= columns {
        r := Newline();
      }
    }

    /** `newline`. */
    method Newline() returns (r: Run<()>)
      modifies this, screen.buffer
      ensures Outcome(r, Snapshot()) == NewlineStep(Settings(), old(Snapshot()))
    {
      col := 0;
      row := row + 1;
      if row >= rows {
        r := ScrollDown();
      } else {
        r := Returns(());
      }
    }

    /** `scroll_down`. */
    method ScrollDown() returns (r: Run<()>)
      modifies this, screen.buffer
      ensures Outcome(r, Snapshot()) == ScrollStep(Settings(), old(Snapshot()))
    {
      if row == 0 {
        return Panics(SUB_OVERFLOW);
      }
      row := row - 1;
      r := screen.DrawRectWith(0, 0, screen.info.width, screen.info.height, ScrollColors(screen.info, fh, bg));
    }

    /** The inner loop of `write_str`: the glyphs of one line, one after
        the other. */
    method WriteLine(line: seq<char>) returns (r: Run<()>)
      modifies this, screen.buffer
      ensures Outcome(r, Snapshot()) ==
        Text.RunOps(old(Snapshot()), Text.GlyphOps(line, GlyphOfChar(Settings())), Glyphs(Settings()), Newlines(Settings()))
    {
      var c := Settings();
      var gof := GlyphOfChar(c);
      ghost var goal := Text.RunOps(Snapshot(), Text.GlyphOps(line, gof), Glyphs(c), Newlines(c));
      ghost var todo := Text.GlyphOps(line, gof);
      var ids := Font.StrToGlyphs(hasTable, glyphs, line);
      var j := 0;
      while j < |ids|
        invariant j <= |ids|
        invariant todo == Text.GlyphOps(line, gof)[j..]
        invariant Text.RunOps(Snapshot(), todo, Glyphs(c), Newlines(c)) == goal
      {
        assert todo[0] == Text.Glyph(ids[j]);
        assert todo[1..] == Text.GlyphOps(line, gof)[j + 1..];
        Text.RunOpsFirst(Snapshot(), todo, Glyphs(c), Newlines(c));
        r := WriteGlyph(ids[j]);
        if r.Panics? {
          return;
        }
        todo := todo[1..];
        j := j + 1;
      }
      return Returns(());
    }

    /** `write_str`: cut the string at its newlines and write the lines. */
    method WriteStr(s: seq<char>) returns (r: Run<()>)
      modifies this, screen.buffer
      ensures Outcome(r, Snapshot()) == WriteSpec(Settings(), old(Snapshot()), s)
    {
      var lines := Text.Split(s);
      Text.SplitOps(s, GlyphOfChar(Settings()));
      r := WriteLines(lines);
    }

    /** The loop of `write_str`: the glyphs of the first line, then a line
        break and the glyphs of each further line. */
    method WriteLines(lines: seq<seq<char>>) returns (r: Run<()>)
      requires |lines| >= 1
      modifies this, screen.buffer
      ensures Outcome(r, Snapshot()) ==
        Text.RunOps(old(Snapshot()), Text.LineOps(lines, GlyphOfChar(Settings())), Glyphs(Settings()), Newlines(Settings()))
    {
      var c := Settings();
      var gof := GlyphOfChar(c);
      Text.RunOpsAppend(Snapshot(), Text.GlyphOps(lines[0], gof), Text.LaterOps(lines[1..], gof), Glyphs(c), Newlines(c));
      ghost var goal := Text.RunOps(Snapshot(), Text.LineOps(lines, gof), Glyphs(c), Newlines(c));
      r := WriteLine(lines[0]);
      if r.Panics? {
        assert Outcome(r, Snapshot()) == goal;
        return;
      }
      var i := 1;
      while i < |lines|
        invariant 1 <= i <= |lines| && r.Returns?
        invariant Text.RunOps(Snapshot(), Text.LaterOps(lines[i..], gof), Glyphs(c), Newlines(c)) == goal
      {
        assert lines[i..][1..] == lines[i + 1..];
        Text.RunOpsAppend(Snapshot(), [Text.Newline] + Text.GlyphOps(lines[i], gof), Text.LaterOps(lines[i + 1..], gof), Glyphs(c), Newlines(c));
        r := NextLine(lines[i]);
        if r.Panics? {
          assert Outcome(r, Snapshot()) == goal;
          return;
        }
        i := i + 1;
      }
      assert lines[i..] == [];
      assert Text.LaterOps(lines[i..], gof) == [];
      assert Outcome(r, Snapshot()) == goal;
    }

    /** One pass of the second loop of `write_str`: a line break, then the
        line's glyphs. */
    method NextLine(line: seq<char>) returns (r: Run<()>)
      modifies this, screen.buffer
      ensures Outcome(r, Snapshot()) ==
        Text.RunOps(old(Snapshot()), [Text.Newline] + Text.GlyphOps(line, GlyphOfChar(Settings())), Glyphs(Settings()), Newlines(Settings()))
    {
      var c := Settings();
      ghost var before := Snapshot();
      r := Newline();
      if r.Panics? {
        return;
      }
      Text.RunOpsNewline(before, Text.GlyphOps(line, GlyphOfChar(c)), Glyphs(c), Newlines(c));
      r := WriteLine(line);
    }
  }
}
