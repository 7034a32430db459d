/** The first kernel's VESA screen and text console (`src/video/vesa.rs`):
    a buffer of `pitch * height` 32-bit words whose pixel `(x, y)` is word
    `y * width + x`, a rectangle drawn from a colour closure without any
    bounds check, and a console that scrolls the picture up by one glyph
    height. The colours are the `Color` of the later kernel's screen,
    which this file declares the same way. */
module LegacyVesa {
  import opened Base
  import Framebuffer
  import Text
  import Vesa

  const INDEX_OOB: string := "index out of bounds"
  const SUB_OVERFLOW: string := "attempt to subtract with overflow"

  /** The fields of the VESA mode `Screen::new` reads. */
  datatype Mode = Mode(width: nat, height: nat, pitch: nat)

  /** `draw_pixel`: nothing off the screen; otherwise word `y * width + x`
      gets the colour's 24-bit word (the index panics past the buffer). */
  function DrawPixelSpec(width: nat, height: nat, buf: seq<u32>, x: nat, y: nat, color: Vesa.Color): Run<seq<u32>>
  {
    if y >= height || x >= width then Returns(buf)
    else
      var k := Framebuffer.Flat(x, y, width);
      if k >= |buf| then Panics(INDEX_OOB) else Returns(buf[k := Vesa.Argb(color)])
  }

  /** `get_pixel`: `None` off the screen, otherwise word `y * width + x`. */
  function PixelAt(width: nat, height: nat, buf: seq<u32>, x: nat, y: nat): Run<Option<u32>>
  {
    if y >= height || x >= width then Returns(None)
    else
      var k := Framebuffer.Flat(x, y, width);
      if k >= |buf| then Panics(INDEX_OOB) else Returns(Some(buf[k]))
  }

  /** A buffer of `pitch * height` words holds every pixel when lines are
      at least `width` words apart. */
  lemma ScreenInBuffer(mode: Mode, x: nat, y: nat)
    requires mode.width <= mode.pitch && x < mode.width && y < mode.height
    ensures Framebuffer.Flat(x, y, mode.width) < mode.pitch * mode.height
  {
    Framebuffer.FlatInRange(x, y, mode.width, mode.height);
    MulMono(mode.height, mode.width, mode.pitch);
  }

  /** After `draw_pixel(x, y, c)` on the screen, `get_pixel(x, y)` gives
      `c`'s 24-bit word, and every other word is as it was; off the
      screen nothing changes. */
  lemma GetAfterDraw(mode: Mode, buf: seq<u32>, x: nat, y: nat, color: Vesa.Color)
    requires mode.width <= mode.pitch && |buf| == mode.pitch * mode.height
    ensures DrawPixelSpec(mode.width, mode.height, buf, x, y, color).Returns?
    ensures x < mode.width && y < mode.height ==>
      var after := DrawPixelSpec(mode.width, mode.height, buf, x, y, color).value;
      && PixelAt(mode.width, mode.height, after, x, y) == Returns(Some(Vesa.Argb(color)))
      && forall i :: 0 <= i < |buf| && i != Framebuffer.Flat(x, y, mode.width) ==> after[i] == buf[i]
    ensures !(x < mode.width && y < mode.height) ==> DrawPixelSpec(mode.width, mode.height, buf, x, y, color) == Returns(buf)
  {
    if x < mode.width && y < mode.height {
      ScreenInBuffer(mode, x, y);
    }
  }

  /** The closure `draw_rect_with` takes. The buffer it is given is the
      screen as it stands: the closure of `scroll_down` captures the
      screen and reads it while the rectangle is drawn. */
  type Colors = (nat, nat, seq<u32>) -> Run<Vesa.Color>

  /** The inner loop of `draw_rect_with`: words `py * width + px` for
      `px` up to `xe`, with no check against the screen's width or
      height; the index is evaluated before the closure is called. */
  function RowSpec(width: nat, buf: seq<u32>, py: nat, px: nat, xe: nat, colors: Colors): Run<seq<u32>>
    decreases xe - px
  {
    if px >= xe then Returns(buf)
    else
      var k := Framebuffer.Flat(px, py, width);
      if k >= |buf| then Panics(INDEX_OOB)
      else
        match colors(px, py, buf)
        case Panics(m) => Panics(m)
        case Returns(c) => RowSpec(width, buf[k := Vesa.Argb(c)], py, px + 1, xe, colors)
  }

  /** The outer loop of `draw_rect_with`: lines `py..ye`. */
  function RowsSpec(width: nat, buf: seq<u32>, py: nat, ye: nat, xs: nat, xe: nat, colors: Colors): Run<seq<u32>>
    decreases ye - py
  {
    if py >= ye then Returns(buf)
    else
      match RowSpec(width, buf, py, xs, xe, colors)
      case Panics(m) => Panics(m)
      case Returns(next) => RowsSpec(width, next, py + 1, ye, xs, xe, colors)
  }

  /** `draw_rect_with(x, y, w, h, colors)`. */
  function RectSpec(width: nat, buf: seq<u32>, x: nat, y: nat, w: nat, h: nat, colors: Colors): Run<seq<u32>>
  {
    RowsSpec(width, buf, y, y + h, x, x + w, colors)
  }

  /** Unlike what its documentation says, `draw_rect_with` does not skip
      pixels off the screen: one past the right edge that is still inside
      the buffer is drawn on the next line, at its first pixel, and one
      past the buffer panics. */
  lemma RectIgnoresEdges(width: nat, buf: seq<u32>, y: nat, color: Vesa.Color)
    requires width > 0
    ensures var colors: Colors := (x: nat, y: nat, b: seq<u32>) => Returns(color);
      var k := Framebuffer.Flat(0, y + 1, width);
      && (k < |buf| ==> RectSpec(width, buf, width, y, 1, 1, colors) == Returns(buf[k := Vesa.Argb(color)]))
      && (k >= |buf| ==> RectSpec(width, buf, width, y, 1, 1, colors) == Panics(INDEX_OOB))
  {
    var colors: Colors := (x: nat, y: nat, b: seq<u32>) => Returns(color);
    var k := Framebuffer.Flat(0, y + 1, width);
    MulAdd(width, y, 1);
    assert Framebuffer.Flat(width, y, width) == k;
    if k < |buf| {
      var next := buf[k := Vesa.Argb(color)];
      assert RowSpec(width, next, y, width + 1, width + 1, colors) == Returns(next);
      assert RowSpec(width, buf, y, width, width + 1, colors) == Returns(next);
      assert RowsSpec(width, next, y + 1, y + 1, width, width + 1, colors) == Returns(next);
    } else {
      assert RowSpec(width, buf, y, width, width + 1, colors) == Panics(INDEX_OOB);
    }
  }

  /** The screen as `scroll_down` needs it: every pixel has a word in the
      buffer. */
  predicate Fits(width: nat, height: nat, size: nat)
  {
    width * height <= size
  }

  /** The closure of `scroll_down`. */
  function ScrollColors(width: nat, height: nat, fh: nat, bg: u32): Colors
  {
    (x: nat, y: nat, buf: seq<u32>) => ScrollColor(width, height, fh, bg, x, y, buf)
  }

  /** The colour `scroll_down` gives pixel `(x, y)`: the word one glyph
      height below, or the background below the screen. */
  function ScrollColor(width: nat, height: nat, fh: nat, bg: u32, x: nat, y: nat, buf: seq<u32>): Run<Vesa.Color>
  {
    match PixelAt(width, height, buf, x, y + fh)
    case Panics(m) => Panics(m)
    case Returns(None) => Returns(Vesa.Word(bg))
    case Returns(Some(v)) => Returns(Vesa.Word(v))
  }

  /** What scrolling puts in word `i` of the screen: the 24-bit word
      `fh` lines further on, or the background past the screen's end. */
  function Shifted(width: nat, height: nat, start: seq<u32>, fh: nat, bg: u32, i: nat): u32
  {
    var j := i + fh * width;
    if j < width * height && j < |start| then Vesa.Argb(Vesa.Word(start[j])) else Vesa.Argb(Vesa.Word(bg))
  }

  /** Scrolling has drawn words `0..k`: they hold their shifted values,
      every other word its value in `start`. */
  ghost predicate Partial(width: nat, height: nat, start: seq<u32>, buf: seq<u32>, fh: nat, bg: u32, k: nat)
  {
    && |buf| == |start|
    && forall i :: 0 <= i < |buf| ==> buf[i] == if i < k then Shifted(width, height, start, fh, bg, i) else start[i]
  }

  /** One pixel of `scroll_down`: its closure reads a word not yet
      overwritten, so the pixel gets its shifted value. */
  lemma ScrollPixel(width: nat, height: nat, start: seq<u32>, buf: seq<u32>, fh: nat, bg: u32, py: nat, px: nat)
    returns (next: seq<u32>)
    requires Fits(width, height, |start|) && px < width && py < height
    requires Partial(width, height, start, buf, fh, bg, Framebuffer.Flat(px, py, width))
    ensures Framebuffer.Flat(px, py, width) < |buf|
    ensures ScrollColor(width, height, fh, bg, px, py, buf).Returns?
    ensures next == buf[Framebuffer.Flat(px, py, width) := Vesa.Argb(ScrollColor(width, height, fh, bg, px, py, buf).value)]
    ensures Partial(width, height, start, next, fh, bg, Framebuffer.Flat(px, py, width) + 1)
  {
    var k := Framebuffer.Flat(px, py, width);
    Framebuffer.FlatInRange(px, py, width, height);
    MulAdd(width, py, fh);
    var v := bg;
    if py + fh < height {
      Framebuffer.FlatInRange(px, py + fh, width, height);
      assert Framebuffer.Flat(px, py + fh, width) == k + fh * width;
      v := buf[k + fh * width];
      assert PixelAt(width, height, buf, px, py + fh) == Returns(Some(v));
    } else {
      MulMono(width, height, py + fh);
      assert PixelAt(width, height, buf, px, py + fh) == Returns(None);
    }
    assert Vesa.Argb(Vesa.Word(v)) == Shifted(width, height, start, fh, bg, k);
    next := buf[k := Vesa.Argb(Vesa.Word(v))];
  }

  /** A line of `scroll_down`, from pixel `px` on. */
  lemma {:induction false} ScrollRow(width: nat, height: nat, start: seq<u32>, buf: seq<u32>, fh: nat, bg: u32, py: nat, px: nat)
    requires Fits(width, height, |start|) && px <= width && py < height
    requires Partial(width, height, start, buf, fh, bg, Framebuffer.Flat(px, py, width))
    ensures RowSpec(width, buf, py, px, width, ScrollColors(width, height, fh, bg)).Returns?
    ensures Partial(width, height, start, RowSpec(width, buf, py, px, width, ScrollColors(width, height, fh, bg)).value,
                    fh, bg, Framebuffer.Flat(0, py + 1, width))
    decreases width - px
  {
    if px < width {
      var next := ScrollPixel(width, height, start, buf, fh, bg, py, px);
      assert ScrollColors(width, height, fh, bg)(px, py, buf) == ScrollColor(width, height, fh, bg, px, py, buf);
      ScrollRow(width, height, start, next, fh, bg, py, px + 1);
    } else {
      assert Framebuffer.Flat(px, py, width) == Framebuffer.Flat(0, py + 1, width);
    }
  }

  /** The lines of `scroll_down`, from line `py` on. */
  lemma {:induction false} ScrollRows(width: nat, height: nat, start: seq<u32>, buf: seq<u32>, fh: nat, bg: u32, py: nat)
    requires Fits(width, height, |start|) && py <= height
    requires Partial(width, height, start, buf, fh, bg, Framebuffer.Flat(0, py, width))
    ensures RowsSpec(width, buf, py, height, 0, width, ScrollColors(width, height, fh, bg)).Returns?
    ensures Partial(width, height, start, RowsSpec(width, buf, py, height, 0, width, ScrollColors(width, height, fh, bg)).value,
                    fh, bg, width * height)
    decreases height - py
  {
    if py < height {
      ScrollRow(width, height, start, buf, fh, bg, py, 0);
      ScrollRows(width, height, start, RowSpec(width, buf, py, 0, width, ScrollColors(width, height, fh, bg)).value, fh, bg, py + 1);
    } else {
      assert Framebuffer.Flat(0, py, width) == width * height;
    }
  }

  /** The rectangle `scroll_down` draws over the whole screen moves the
      picture up by `fh` lines: when every pixel has a word it does not
      panic, every word of the screen ends with its shifted value (see
      `ShiftedAt` for what that is pixel by pixel), and the words after
      the screen are unchanged. */
  lemma ScrollMeaning(width: nat, height: nat, buf: seq<u32>, fh: nat, bg: u32)
    requires Fits(width, height, |buf|)
    ensures RectSpec(width, buf, 0, 0, width, height, ScrollColors(width, height, fh, bg)).Returns?
    ensures var after := RectSpec(width, buf, 0, 0, width, height, ScrollColors(width, height, fh, bg)).value;
      && |after| == |buf|
      && (forall i :: 0 <= i < width * height ==> after[i] == Shifted(width, height, buf, fh, bg, i))
      && forall i :: width * height <= i < |buf| ==> after[i] == buf[i]
  {
    assert Framebuffer.Flat(0, 0, width) == 0;
    ScrollRows(width, height, buf, buf, fh, bg, 0);
  }

  /** Word `y * width + x` shifted is the pixel `fh` lines below `(x, y)`,
      or the background where that is below the screen. */
  lemma ShiftedAt(width: nat, height: nat, buf: seq<u32>, fh: nat, bg: u32, x: nat, y: nat)
    requires Fits(width, height, |buf|) && x < width && y < height
    ensures Framebuffer.Flat(x, y, width) < width * height
    ensures y + fh < height ==> Framebuffer.Flat(x, y + fh, width) < |buf|
    ensures Shifted(width, height, buf, fh, bg, Framebuffer.Flat(x, y, width)) ==
      if y + fh < height then Vesa.Argb(Vesa.Word(buf[Framebuffer.Flat(x, y + fh, width)]))
      else Vesa.Argb(Vesa.Word(bg))
  {
    Framebuffer.FlatInRange(x, y, width, height);
    MulAdd(width, y, fh);
    assert Framebuffer.Flat(x, y + fh, width) == Framebuffer.Flat(x, y, width) + fh * width;
    if y + fh < height {
      Framebuffer.FlatInRange(x, y + fh, width, height);
    } else {
      MulMono(width, height, y + fh);
    }
  }

  /** `Screen`: the word buffer and the screen's size. */
  class Screen {
    const buffer: array<u32>
    const width: nat
    const height: nat

    /** `Screen::new`: the buffer is the `pitch * height` words at the
        mode's framebuffer address. */
    constructor (mode: Mode, contents: seq<u32>)
      requires |contents| == mode.pitch * mode.height
      ensures fresh(buffer) && buffer[..] == contents && width == mode.width && height == mode.height
    {
      buffer := new u32[|contents|](i requires 0 <= i < |contents| => contents[i]);
      width := mode.width;
      height := mode.height;
    }

    /** `get_pixel`. */
    function GetPixel(x: nat, y: nat): Run<Option<u32>>
      reads buffer
    {
      PixelAt(width, height, buffer[..], x, y)
    }

    /** `draw_pixel`. */
    method DrawPixel(x: nat, y: nat, color: Vesa.Color) returns (r: Run<()>)
      modifies buffer
      ensures Outcome(r, buffer[..]) == DrawPixelSpec(width, height, old(buffer[..]), x, y, color)
    {
      if y >= height || x >= width {
        return Returns(());
      }
      var k := y * width + x;
      if k >= buffer.Length {
        return Panics(INDEX_OOB);
      }
      buffer[k] := Vesa.Argb(color);
      return Returns(());
    }

    /** `draw_rect_with`, with its two loops. */
    method DrawRectWith(x: nat, y: nat, w: nat, h: nat, colors: Colors) returns (r: Run<()>)
      modifies buffer
      ensures Outcome(r, buffer[..]) == RectSpec(width, old(buffer[..]), x, y, w, h, colors)
    {
      ghost var start := buffer[..];
      var row := y;
      while row < y + h
        invariant y <= row <= y + h
        invariant RowsSpec(width, buffer[..], row, y + h, x, x + w, colors) == RectSpec(width, start, x, y, w, h, colors)
        decreases y + h - row
      {
        ghost var rowStart := buffer[..];
        var rowOffset := row * width;
        var col := x;
        while col < x + w
          invariant x <= col <= x + w
          invariant RowSpec(width, buffer[..], row, col, x + w, colors) == RowSpec(width, rowStart, row, x, x + w, colors)
          decreases x + w - col
        {
          if rowOffset + col >= buffer.Length {
            return Panics(INDEX_OOB);
          }
          var c := colors(col, row, buffer[..]);
          if c.Panics? {
            return Panics(c.reason);
          }
          buffer[rowOffset + col] := Vesa.Argb(c.value);
          col := col + 1;
        }
        row := row + 1;
      }
      return Returns(());
    }
  }

  /** What stays fixed while the console writes: the screen's size, the
      glyph size and bitmaps, the glyph `str_to_glyphs` gives each
      character, the size in characters, the colours. */
  datatype Config = Config(width: nat, height: nat, fw: nat, fh: nat, bitmaps: seq<(nat, seq<u8>)>,
                           glyphOf: char -> nat, rows: nat, columns: nat, fg: u32, bg: u32)

  /** What writing changes: the cursor and the screen's words. */
  datatype State = State(row: nat, col: nat, buf: seq<u32>)

  /** The closure of `write_glyph` for a glyph drawn at `(gx, gy)`. */
  function GlyphColors(bitmap: seq<u8>, bpr: nat, gx: nat, gy: nat, fg: u32, bg: u32): Colors
  {
    (x: nat, y: nat, buf: seq<u32>) => GlyphColor(bitmap, bpr, gx, gy, fg, bg, x, y)
  }

  /** The colour `write_glyph` gives pixel `(x, y)`: the foreground where
      the glyph's bit is set, the background elsewhere; the subtractions
      are checked and the bitmap index panics past its end. */
  function GlyphColor(bitmap: seq<u8>, bpr: nat, gx: nat, gy: nat, fg: u32, bg: u32, x: nat, y: nat): Run<Vesa.Color>
  {
    if x < gx || y < gy then Panics(SUB_OVERFLOW)
    else
      var k := Text.BitmapIndex(bpr, x - gx, y - gy);
      if k >= |bitmap| then Panics(INDEX_OOB)
      else if Text.BitSet(bitmap[k], 7 - (x - gx) % 8) then Returns(Vesa.Word(fg))
      else Returns(Vesa.Word(bg))
  }

  /** `write_glyph`: a glyph id past the font draws nothing; otherwise the
      glyph is drawn in the cursor's cell and the cursor moves on,
      breaking the line when the row is full. */
  function GlyphStep(c: Config, st: State, gid: nat): Run<State>
  {
    if gid >= |c.bitmaps| then Returns(st)
    else
      var (bpr, bitmap) := c.bitmaps[gid];
      var gx, gy := st.col * c.fw, st.row * c.fh;
      match RectSpec(c.width, st.buf, gx, gy, c.fw, c.fh, GlyphColors(bitmap, bpr, gx, gy, c.fg, c.bg))
      case Panics(m) => Panics(m)
      case Returns(buf) =>
        if st.col + 1 >= c.columns then NewlineStep(c, State(st.row, st.col + 1, buf))
        else Returns(State(st.row, st.col + 1, buf))
  }

  /** `newline`: the start of the next line, scrolling when that is past
      the last row. */
  function NewlineStep(c: Config, st: State): Run<State>
  {
    if st.row + 1 >= c.rows then ScrollStep(c, State(st.row + 1, 0, st.buf))
    else Returns(State(st.row + 1, 0, st.buf))
  }

  /** `scroll_down`: the row goes back by one (a checked subtraction) and
      the picture moves up by a glyph height. */
  function ScrollStep(c: Config, st: State): Run<State>
  {
    if st.row == 0 then Panics(SUB_OVERFLOW)
    else
      match RectSpec(c.width, st.buf, 0, 0, c.width, c.height, ScrollColors(c.width, c.height, c.fh, c.bg))
      case Panics(m) => Panics(m)
      case Returns(buf) => Returns(State(st.row - 1, st.col, buf))
  }

  /** A glyph missing from the font changes nothing; a drawn one moves the
      cursor to the next cell, as on the later kernel's console. On a
      console of at least one row, a cursor on the screen stays on it. */
  lemma GlyphCursor(c: Config, st: State, gid: nat)
    requires GlyphStep(c, st, gid).Returns?
    ensures gid >= |c.bitmaps| ==> GlyphStep(c, st, gid).value == st
    ensures gid < |c.bitmaps| ==>
      var after := GlyphStep(c, st, gid).value;
      (after.row, after.col) == Vesa.NextCell(c.rows, c.columns, st.row, st.col)
    ensures st.row < c.rows && st.col < c.columns ==>
      GlyphStep(c, st, gid).value.row < c.rows && GlyphStep(c, st, gid).value.col < c.columns
  {
  }

  /** The scroll of `newline` on a screen whose every pixel has a word:
      it does not panic, the row goes back by one, and the screen's words
      take their shifted values. */
  lemma ScrollStepMeaning(c: Config, st: State)
    requires Fits(c.width, c.height, |st.buf|) && st.row > 0
    ensures ScrollStep(c, st).Returns?
    ensures var after := ScrollStep(c, st).value;
      && after.row == st.row - 1 && after.col == st.col && |after.buf| == |st.buf|
      && (forall i :: 0 <= i < c.width * c.height ==> after.buf[i] == Shifted(c.width, c.height, st.buf, c.fh, c.bg, i))
      && forall i :: c.width * c.height <= i < |st.buf| ==> after.buf[i] == st.buf[i]
  {
    ScrollMeaning(c.width, c.height, st.buf, c.fh, c.bg);
  }

  /** A glyph bitmap read by the closure of `write_glyph` over a glyph of
      `fw` by `fh` pixels: every pixel's byte is inside it. */
  predicate GlyphFits(bitmap: seq<u8>, bpr: nat, fw: nat, fh: nat)
  {
    fw == 0 || fh == 0 || Text.BitmapIndex(bpr, fw - 1, fh - 1) < |bitmap|
  }

  /** Inside the glyph's cell, the closure of `write_glyph` reads a byte of
      a bitmap that fits and does not panic. */
  lemma GlyphColorReturns(bitmap: seq<u8>, bpr: nat, gx: nat, gy: nat, fw: nat, fh: nat, fg: u32, bg: u32, x: nat, y: nat)
    requires GlyphFits(bitmap, bpr, fw, fh) && gx <= x < gx + fw && gy <= y < gy + fh
    ensures GlyphColor(bitmap, bpr, gx, gy, fg, bg, x, y).Returns?
  {
    MulMono(bpr, y - gy, fh - 1);
    assert (x - gx) / 8 <= (fw - 1) / 8;
  }

  /** A line of a rectangle inside a screen whose pixels all have words,
      drawn with a closure that returns inside the rectangle, does not
      panic and keeps the buffer's length. */
  lemma {:induction false} RowReturns(width: nat, height: nat, buf: seq<u32>, py: nat, px: nat, xe: nat, colors: Colors)
    requires Fits(width, height, |buf|) && px <= xe <= width && py < height
    requires forall x: nat, b: seq<u32> :: px <= x < xe ==> colors(x, py, b).Returns?
    ensures RowSpec(width, buf, py, px, xe, colors).Returns?
    ensures |RowSpec(width, buf, py, px, xe, colors).value| == |buf|
    decreases xe - px
  {
    if px < xe {
      Framebuffer.FlatInRange(px, py, width, height);
      assert colors(px, py, buf).Returns?;
      var next := buf[Framebuffer.Flat(px, py, width) := Vesa.Argb(colors(px, py, buf).value)];
      RowReturns(width, height, next, py, px + 1, xe, colors);
    }
  }

  /** The lines of such a rectangle, from line `py` on. */
  lemma {:induction false} RowsReturn(width: nat, height: nat, buf: seq<u32>, py: nat, ye: nat, xs: nat, xe: nat, colors: Colors)
    requires Fits(width, height, |buf|) && xs <= xe <= width && py <= ye <= height
    requires forall x: nat, y: nat, b: seq<u32> :: xs <= x < xe && py <= y < ye ==> colors(x, y, b).Returns?
    ensures RowsSpec(width, buf, py, ye, xs, xe, colors).Returns?
    decreases ye - py
  {
    if py < ye {
      RowReturns(width, height, buf, py, xs, xe, colors);
      RowsReturn(width, height, RowSpec(width, buf, py, xs, xe, colors).value, py + 1, ye, xs, xe, colors);
    }
  }

  /** `draw_rect_with` has no bounds check, but the console's cursor keeps
      its glyphs on the screen: with the cursor on a row and column of a
      console sized as `new` sizes it, a glyph whose bitmap fits is drawn
      without a panic. */
  lemma GlyphDrawReturns(c: Config, st: State, gid: nat)
    requires c.fw > 0 && c.fh > 0 && c.rows == c.height / c.fh && c.columns == c.width / c.fw
    requires st.row < c.rows && st.col < c.columns && Fits(c.width, c.height, |st.buf|)
    requires gid < |c.bitmaps| && GlyphFits(c.bitmaps[gid].1, c.bitmaps[gid].0, c.fw, c.fh)
    ensures var (bpr, bitmap) := c.bitmaps[gid];
      var gx, gy := st.col * c.fw, st.row * c.fh;
      RectSpec(c.width, st.buf, gx, gy, c.fw, c.fh, GlyphColors(bitmap, bpr, gx, gy, c.fg, c.bg)).Returns?
  {
    var (bpr, bitmap) := c.bitmaps[gid];
    var gx, gy := st.col * c.fw, st.row * c.fh;
    CellOnScreen(st.col, c.columns, c.fw, c.width);
    CellOnScreen(st.row, c.rows, c.fh, c.height);
    var colors := GlyphColors(bitmap, bpr, gx, gy, c.fg, c.bg);
    forall x: nat, y: nat, b: seq<u32> | gx <= x < gx + c.fw && gy <= y < gy + c.fh
      ensures colors(x, y, b).Returns?
    {
      GlyphColorReturns(bitmap, bpr, gx, gy, c.fw, c.fh, c.fg, c.bg, x, y);
    }
    RowsReturn(c.width, c.height, st.buf, gy, gy + c.fh, gx, gx + c.fw, colors);
  }

  /** Cell `i` of `n = size / f` cells of `f` pixels ends inside `size`. */
  lemma CellOnScreen(i: nat, n: nat, f: nat, size: nat)
    requires f > 0 && n == size / f && i < n
    ensures i * f + f <= size
  {
    MulMono(f, i + 1, n);
    assert f * n <= size;
  }

  function Glyphs(c: Config): (State, nat) -> Run<State>
  {
    (st: State, gid: nat) => GlyphStep(c, st, gid)
  }

  function Newlines(c: Config): State -> Run<State>
  {
    (st: State) => NewlineStep(c, st)
  }

  /** `write_str`, read one character at a time: a newline breaks the
      line, scrolling past the last row, and any other character is drawn
      as its glyph. */
  function WriteSpec(c: Config, st: State, s: seq<char>): Run<State>
  {
    Text.RunOps(st, Text.CharOps(s, c.glyphOf), Glyphs(c), Newlines(c))
  }

  /** A line break that returns moves the cursor to column 0 of the next
      row, or keeps it on the last row, which scrolls. */
  lemma NewlineCursor(c: Config, st: State)
    requires NewlineStep(c, st).Returns?
    ensures NewlineStep(c, st).value.col == 0
    ensures NewlineStep(c, st).value.row == if st.row + 1 < c.rows then st.row + 1 else st.row
  {
  }

  /** Whatever is written, a cursor on the screen stays on it. The older
      console is a copy of the newer one with its own screen and font
      types, so this is proved again here rather than taken from
      `Vesa.CursorStaysOnScreen`. */
  lemma {:induction false} CursorStaysOnScreen(c: Config, st: State, ops: seq<Text.Op>)
    requires st.row < c.rows && st.col < c.columns
    ensures Text.RunOps(st, ops, Glyphs(c), Newlines(c)).Returns? ==>
      var after := Text.RunOps(st, ops, Glyphs(c), Newlines(c)).value;
      after.row < c.rows && after.col < c.columns
    decreases |ops|
  {
    if ops != [] {
      var step := if ops[0].Newline? then NewlineStep(c, st) else GlyphStep(c, st, ops[0].gid);
      if step.Returns? {
        if ops[0].Newline? {
          NewlineCursor(c, st);
        } else {
          GlyphCursor(c, st, ops[0].gid);
        }
        CursorStaysOnScreen(c, step.value, ops[1..]);
      }
    }
  }

  /** `Console`: the screen, the glyph size and bitmaps it draws with, its
      size in characters and the cursor. */
  class Console {
    const screen: Screen
    const fw: nat
    const fh: nat
    const bitmaps: seq<(nat, seq<u8>)>
    const glyphOf: char -> nat
    const rows: nat
    const columns: nat
    var row: nat
    var col: nat
    const fg: u32
    const bg: u32

    /** `Console::new`: as many rows and columns of glyphs as fit the
        screen, the cursor at the top left. */
    constructor (screen: Screen, fw: nat, fh: nat, bitmaps: seq<(nat, seq<u8>)>, glyphOf: char -> nat)
      requires fw > 0 && fh > 0
      ensures this.screen == screen && this.fw == fw && this.fh == fh && this.bitmaps == bitmaps
      ensures this.glyphOf == glyphOf
      ensures rows == screen.height / fh && columns == screen.width / fw
      ensures row == 0 && col == 0 && fg == Vesa.FG && bg == Vesa.BG
    {
      this.screen := screen;
      this.fw := fw;
      this.fh := fh;
      this.bitmaps := bitmaps;
      this.glyphOf := glyphOf;
      rows := screen.height / fh;
      columns := screen.width / fw;
      row, col := 0, 0;
      fg, bg := Vesa.FG, Vesa.BG;
    }

    function Settings(): Config
    {
      Config(screen.width, screen.height, fw, fh, bitmaps, glyphOf, rows, columns, fg, bg)
    }

    function Snapshot(): State
      reads this, screen.buffer
    {
      State(row, col, screen.buffer[..])
    }

    /** `write_glyph`. */
    method WriteGlyph(gid: nat) returns (r: Run<()>)
      modifies this, screen.buffer
      ensures Outcome(r, Snapshot()) == GlyphStep(Settings(), old(Snapshot()), gid)
    {
      if gid >= |bitmaps| {
        return Returns(());
      }
      var (bpr, bitmap) := bitmaps[gid];
      var gx, gy := col * fw, row * fh;
      r := screen.DrawRectWith(gx, gy, fw, fh, GlyphColors(bitmap, bpr, gx, gy, fg, bg));
      if r.Panics? {
        return;
      }
      col := col + 1;
      if col >= columns {
        r := Newline();
      }
    }

    /** `newline`. */
    method Newline() returns (r: Run<()>)
      modifies this, screen.buffer
      ensures Outcome(r, Snapshot()) == NewlineStep(Settings(), old(Snapshot()))
    {
      col := 0;
      row := row + 1;
      if row >= rows {
        r := ScrollDown();
      } else {
        r := Returns(());
      }
    }

    /** `scroll_down`. */
    method ScrollDown() returns (r: Run<()>)
      modifies this, screen.buffer
      ensures Outcome(r, Snapshot()) == ScrollStep(Settings(), old(Snapshot()))
    {
      if row == 0 {
        return Panics(SUB_OVERFLOW);
      }
      row := row - 1;
      r := screen.DrawRectWith(0, 0, screen.width, screen.height, ScrollColors(screen.width, screen.height, fh, bg));
    }

    /** The inner loop of `write_str`: the glyphs of one line, one after
        the other. */
    method WriteLine(line: seq<char>) returns (r: Run<()>)
      modifies this, screen.buffer
      ensures Outcome(r, Snapshot()) ==
        Text.RunOps(old(Snapshot()), Text.GlyphOps(line, glyphOf), Glyphs(Settings()), Newlines(Settings()))
    {
      var c := Settings();
      ghost var goal := Text.RunOps(Snapshot(), Text.GlyphOps(line, glyphOf), Glyphs(c), Newlines(c));
      ghost var todo := Text.GlyphOps(line, glyphOf);
      var j := 0;
      while j < |line|
        invariant j <= |line|
        invariant todo == Text.GlyphOps(line, glyphOf)[j..]
        invariant Text.RunOps(Snapshot(), todo, Glyphs(c), Newlines(c)) == goal
      {
        assert todo[0] == Text.Glyph(glyphOf(line[j]));
        assert todo[1..] == Text.GlyphOps(line, glyphOf)[j + 1..];
        Text.RunOpsFirst(Snapshot(), todo, Glyphs(c), Newlines(c));
        r := WriteGlyph(glyphOf(line[j]));
        if r.Panics? {
          return;
        }
        todo := todo[1..];
        j := j + 1;
      }
      return Returns(());
    }

    /** `write_str`: cut the string at its newlines and write the lines. */
    method WriteStr(s: seq<char>) returns (r: Run<()>)
      modifies this, screen.buffer
      ensures Outcome(r, Snapshot()) == WriteSpec(Settings(), old(Snapshot()), s)
    {
      var lines := Text.Split(s);
      Text.SplitOps(s, glyphOf);
      r := WriteLines(lines);
    }

    /** The loop of `write_str`: the glyphs of the first line, then a line
        break and the glyphs of each further line. */
    method WriteLines(lines: seq<seq<char>>) returns (r: Run<()>)
      requires |lines| >= 1
      modifies this, screen.buffer
      ensures Outcome(r, Snapshot()) ==
        Text.RunOps(old(Snapshot()), Text.LineOps(lines, glyphOf), Glyphs(Settings()), Newlines(Settings()))
    {
      var c := Settings();
      Text.RunOpsAppend(Snapshot(), Text.GlyphOps(lines[0], glyphOf), Text.LaterOps(lines[1..], glyphOf), Glyphs(c), Newlines(c));
      ghost var goal := Text.RunOps(Snapshot(), Text.LineOps(lines, glyphOf), Glyphs(c), Newlines(c));
      r := WriteLine(lines[0]);
      if r.Panics? {
        assert Outcome(r, Snapshot()) == goal;
        return;
      }
      var i := 1;
      while i < |lines|
        invariant 1 <= i <= |lines| && r.Returns?
        invariant Text.RunOps(Snapshot(), Text.LaterOps(lines[i..], glyphOf), Glyphs(c), Newlines(c)) == goal
      {
        assert lines[i..][1..] == lines[i + 1..];
        Text.RunOpsAppend(Snapshot(), [Text.Newline] + Text.GlyphOps(lines[i], glyphOf), Text.LaterOps(lines[i + 1..], glyphOf), Glyphs(c), Newlines(c));
        r := NextLine(lines[i]);
        if r.Panics? {
          assert Outcome(r, Snapshot()) == goal;
          return;
        }
        i := i + 1;
      }
      assert lines[i..] == [];
      assert Text.LaterOps(lines[i..], glyphOf) == [];
      assert Outcome(r, Snapshot()) == goal;
    }

    /** One pass of the second loop of `write_str`: a line break, then the
        line's glyphs. */
    method NextLine(line: seq<char>) returns (r: Run<()>)
      modifies this, screen.buffer
      ensures Outcome(r, Snapshot()) ==
        Text.RunOps(old(Snapshot()), [Text.Newline] + Text.GlyphOps(line, glyphOf), Glyphs(Settings()), Newlines(Settings()))
    {
      var c := Settings();
      ghost var before := Snapshot();
      r := Newline();
      if r.Panics? {
        return;
      }
      Text.RunOpsNewline(before, Text.GlyphOps(line, glyphOf), Glyphs(c), Newlines(c));
      r := WriteLine(line);
    }
  }
}
