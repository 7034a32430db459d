/** The kernel's text console (`kernel/src/video/console.rs`): a cursor over
    a framebuffer, glyphs drawn from the PSF font as rectangles blitted at
    the cursor, and line breaks. `scroll_down` has an empty body, so the
    cursor's row only ever grows. */
module Console {
  import opened Base
  import opened Framebuffer
  import Font
  import Text

  /** The cursor's initial colours: white glyphs on opaque black. */
  const FG: u32 := 0xFFFF_FFFF
  const BG: u32 := 0x0000_00FF

  /** What stays fixed while a console writes: its font and character
      map, the framebuffer's layout, its size in characters, and the
      cursor's colours. */
  datatype Config = Config(psf: seq<u8>, hasTable: bool, glyphs: map<nat, nat>, info: FramebufferInfo,
                           rows: nat, columns: nat, fg: u32, bg: u32)

  /** What writing changes: the cursor and the framebuffer memory. */
  datatype State = State(row: nat, col: nat, mem: seq<u8>)

  /** `x as i32` for a `usize`: the low 32 bits, read as two's complement. */
  function WrapI32(n: nat): int
  {
    AsI32(n % U32_LIMIT)
  }

  /** The colour the glyph closure gives pixel `(x, y)`: the foreground
      where the glyph's bit is set, the background elsewhere. */
  function GlyphPixel(bitmap: seq<u8>, bytesPerRow: nat, fg: u32, bg: u32): (nat, nat) -> Pixel
  {
    (x: nat, y: nat) => if Text.GlyphBit(bitmap, bytesPerRow, x, y) then FromU32Rgba(fg) else FromU32Rgba(bg)
  }

  /** The glyph closure reads byte `y * bytes_per_row + x / 8` of the
      bitmap, which panics past its end; the last pixel reads the farthest
      byte. */
  predicate GlyphReadsInside(bitmap: seq<u8>, bytesPerRow: nat, w: nat, h: nat)
  {
    w == 0 || h == 0 || Text.BitmapIndex(bytesPerRow, w - 1, h - 1) < |bitmap|
  }

  /** `write_glyph`: fetch the glyph's bitmap (an id past the font draws
      nothing), then draw it. */
  function GlyphStep(c: Config, st: State, gid: nat): Run<State>
  {
    match Font.GlyphBitmap(c.psf, gid)
    case Panics(m) => Panics(m)
    case Returns(Err(_)) => Returns(st)
    case Returns(Ok((bpr, bitmap))) =>
      match Font.Width(c.psf)
      case Panics(m) => Panics(m)
      case Returns(fw) =>
        match Font.Height(c.psf)
        case Panics(m) => Panics(m)
        case Returns(fh) => DrawGlyph(c, st, bitmap, bpr, fw, fh)
  }

  /** The rest of `write_glyph` for a glyph `fw` by `fh` pixels: build its
      rectangle (`with` panics on an area from 2^32 on, the closure past
      the bitmap's end), blit it at the cursor's cell, and advance the
      cursor, breaking the line when the row is full. */
  function DrawGlyph(c: Config, st: State, bitmap: seq<u8>, bpr: nat, fw: nat, fh: nat): Run<State>
  {
    var w, h := fw % U32_LIMIT, fh % U32_LIMIT;
    if TooLarge(w, h) then Panics(MUL_OVERFLOW)
    else if !GlyphReadsInside(bitmap, bpr, w, h) then Panics(Font.OUT_OF_BOUNDS)
    else
      match BlitSpec(c.info, st.mem, GlyphRect(bitmap, bpr, c.fg, c.bg, w, h), w, h,
                     WrapI32(Cell(st.col, fw)), WrapI32(Cell(st.row, fh)))
      case Panics(m) => Panics(m)
      case Returns(mem) =>
        var next := Text.Advance(st.row, st.col, c.columns);
        Returns(State(next.0, next.1, mem))
  }

  /** A `w` by `h` rectangle has 2^32 pixels or more. */
  predicate TooLarge(w: nat, h: nat)
  {
    w * h >= U32_LIMIT
  }

  /** Where cell `k` starts, for cells `size` pixels long. */
  function Cell(k: nat, size: nat): nat
  {
    k * size
  }

  /** The pixels of a glyph's rectangle. */
  function GlyphRect(bitmap: seq<u8>, bpr: nat, fg: u32, bg: u32, w: nat, h: nat): (r: seq<Pixel>)
    ensures |r| == w * h
  {
    RectOf(w, h, GlyphPixel(bitmap, bpr, fg, bg))
  }

  /** `newline`: the start of the next row; `scroll_down` does nothing. */
  function NewlineStep(st: State): Run<State>
  {
    Returns(State(st.row + 1, 0, st.mem))
  }

  function Glyphs(c: Config): (State, nat) -> Run<State>
  {
    (st: State, gid: nat) => GlyphStep(c, st, gid)
  }

  /** `str_to_glyphs` for one character, with the console's font. */
  function GlyphOfChar(c: Config): char -> nat
  {
    (ch: char) => Font.GlyphOf(c.hasTable, c.glyphs, ch)
  }

  /** `write_str`, read one character at a time: a newline breaks the
      line and any other character is drawn as its glyph. */
  function WriteSpec(c: Config, st: State, s: seq<char>): Run<State>
  {
    Text.RunOps(st, Text.CharOps(s, GlyphOfChar(c)), Glyphs(c), NewlineStep)
  }

  /** A glyph step either leaves the cursor alone (a glyph the font does
      not have) or advances it; the memory changes only by the blit. */
  lemma GlyphStepCursor(c: Config, st: State, gid: nat)
    ensures GlyphStep(c, st, gid).Returns? ==>
      var st' := GlyphStep(c, st, gid).value;
      (st'.row, st'.col) == (st.row, st.col) || (st'.row, st'.col) == Text.Advance(st.row, st.col, c.columns)
  {
  }

  /** A glyph id the font does not have draws nothing and leaves the
      cursor where it was. */
  lemma MissingGlyphKeeps(c: Config, st: State, gid: nat)
    requires Font.GlyphCount(c.psf).Returns? && gid >= Font.GlyphCount(c.psf).value
    ensures GlyphStep(c, st, gid) == Returns(st)
  {
  }

  /** Whatever is written, a cursor inside a row stays inside a row, and
      the row never goes back: nothing scrolls. */
  lemma {:induction false} CursorStaysInRow(c: Config, st: State, ops: seq<Text.Op>)
    requires c.columns > 0 && st.col < c.columns
    ensures Text.RunOps(st, ops, Glyphs(c), NewlineStep).Returns? ==>
      var st' := Text.RunOps(st, ops, Glyphs(c), NewlineStep).value;
      st'.col < c.columns && st'.row >= st.row
    decreases |ops|
  {
    if ops != [] {
      var step := if ops[0].Newline? then NewlineStep(st) else GlyphStep(c, st, ops[0].gid);
      if !ops[0].Newline? {
        GlyphStepCursor(c, st, ops[0].gid);
      }
      if step.Returns? {
        CursorStaysInRow(c, step.value, ops[1..]);
      }
    }
  }

  /** Every byte a glyph's pixels read is inside the bitmap exactly when
      the last pixel's is. */
  lemma GlyphReadsInsideMeaning(bitmap: seq<u8>, bytesPerRow: nat, w: nat, h: nat)
    ensures GlyphReadsInside(bitmap, bytesPerRow, w, h) <==>
      forall x: nat, y: nat :: x < w && y < h ==> Text.BitmapIndex(bytesPerRow, x, y) < |bitmap|
  {
    if GlyphReadsInside(bitmap, bytesPerRow, w, h) {
      forall x: nat, y: nat | x < w && y < h
        ensures Text.BitmapIndex(bytesPerRow, x, y) < |bitmap|
      {
        MulMono(bytesPerRow, y, h - 1);
        assert x / 8 <= (w - 1) / 8;
      }
    }
  }

  /** On a screen whose layout the blit's meaning covers, with the cursor's
      cell inside the positive `i32` range, an existing glyph is drawn with
      its top-left corner at `(col * width, row * height)` and the cursor
      advances. */
  lemma GlyphDrawnAtCursor(c: Config, st: State, gid: nat, bpr: nat, bitmap: seq<u8>, fw: nat, fh: nat)
    requires Font.GlyphBitmap(c.psf, gid) == Returns(Ok((bpr, bitmap)))
    requires Font.Width(c.psf) == Returns(fw) && Font.Height(c.psf) == Returns(fh)
    requires Cell(st.col + 1, fw) < I32_LIMIT && Cell(st.row + 1, fh) < I32_LIMIT
    requires !TooLarge(fw, fh) && GlyphReadsInside(bitmap, bpr, fw, fh)
    requires c.info.width < I32_LIMIT && c.info.height < I32_LIMIT && c.info.height * c.info.stride <= |st.mem|
    requires ByteChannels(c.info.format) ==> Separated(c.info.stride, c.info.bytesPerPixel, c.info.width,
      c.info.format.redShift / 8, c.info.format.greenShift / 8, c.info.format.blueShift / 8)
    ensures GlyphStep(c, st, gid) == Returns(DrawnAt(c, st, bitmap, bpr, fw, fh))
  {
    DrawGlyphAtCell(c, st, bitmap, bpr, fw, fh);
  }

  /** The state after drawing a glyph at the cursor's cell: the blit's
      meaning, and the cursor advanced. */
  function DrawnAt(c: Config, st: State, bitmap: seq<u8>, bpr: nat, fw: nat, fh: nat): State
  {
    var pixels := GlyphRect(bitmap, bpr, c.fg, c.bg, fw, fh);
    var mem := if ByteChannels(c.info.format)
      then Blitted(c.info, st.mem, pixels, fw, fh, Cell(st.col, fw), Cell(st.row, fh))
      else st.mem;
    var next := Text.Advance(st.row, st.col, c.columns);
    State(next.0, next.1, mem)
  }

  /** `DrawGlyph` in the cursor's cell, under the same conditions. */
  lemma {:induction false} DrawGlyphAtCell(c: Config, st: State, bitmap: seq<u8>, bpr: nat, fw: nat, fh: nat)
    requires Cell(st.col + 1, fw) < I32_LIMIT && Cell(st.row + 1, fh) < I32_LIMIT
    requires !TooLarge(fw, fh) && GlyphReadsInside(bitmap, bpr, fw, fh)
    requires c.info.width < I32_LIMIT && c.info.height < I32_LIMIT && c.info.height * c.info.stride <= |st.mem|
    requires ByteChannels(c.info.format) ==> Separated(c.info.stride, c.info.bytesPerPixel, c.info.width,
      c.info.format.redShift / 8, c.info.format.greenShift / 8, c.info.format.blueShift / 8)
    ensures DrawGlyph(c, st, bitmap, bpr, fw, fh) == Returns(DrawnAt(c, st, bitmap, bpr, fw, fh))
  {
    CellInRange(st.col, fw);
    CellInRange(st.row, fh);
    ClipInRange(c.info, fw, fh, Cell(st.col, fw), Cell(st.row, fh));
    var pixels := GlyphRect(bitmap, bpr, c.fg, c.bg, fw, fh);
    BlitMeaning(c.info, st.mem, pixels, fw, fh, Cell(st.col, fw), Cell(st.row, fh));
  }

  /** A cell whose end is below 2^31 keeps its start and its length when
      cast to `u32` and `i32`. */
  lemma CellInRange(k: nat, size: nat)
    requires Cell(k + 1, size) < I32_LIMIT
    ensures size < I32_LIMIT && size % U32_LIMIT == size
    ensures Cell(k, size) + size < I32_LIMIT && WrapI32(Cell(k, size)) == Cell(k, size)
  {
    CellNext(k, size);
  }

  /** A rectangle placed at a non-negative position whose far corner is
      below 2^31 passes the blit's checked additions. */
  lemma ClipInRange(info: FramebufferInfo, rw: nat, rh: nat, cx: nat, cy: nat)
    requires cx + rw < I32_LIMIT && cy + rh < I32_LIMIT
    ensures Clipping(info.width, info.height, rw, rh, cx, cy).Returns?
  {
  }

  /** The next cell starts `size` on, and no cell is shorter than `size`
      past the first. */
  lemma CellNext(k: nat, size: nat)
    ensures Cell(k + 1, size) == Cell(k, size) + size && size <= Cell(k + 1, size)
  {
    MulAdd(size, k, 1);
  }

  /** `Console`: a framebuffer, its size in characters and the cursor. */
  class Console {
    const psf: seq<u8>
    const hasTable: bool
    const glyphs: map<nat, nat>
    const fb: Screen
    const rows: nat
    const columns: nat
    var row: nat
    var col: nat
    const fg: u32
    const bg: u32

    /** `Console::new`: as many rows and columns of glyphs as fit the
        framebuffer, the cursor at the top left. */
    constructor (psf: seq<u8>, fb: Screen)
      requires Font.ConsoleFont(psf)
      ensures this.psf == psf && this.fb == fb
      ensures hasTable == Font.HasUnicodeTable(psf).value && glyphs == Font.GlyphMap(psf).value
      ensures rows == fb.info.height / Font.Height(psf).value && columns == fb.info.width / Font.Width(psf).value
      ensures row == 0 && col == 0 && fg == FG && bg == BG
    {
      this.psf := psf;
      hasTable := Font.HasUnicodeTable(psf).value;
      glyphs := Font.GlyphMap(psf).value;
      this.fb := fb;
      rows := fb.info.height / Font.Height(psf).value;
      columns := fb.info.width / Font.Width(psf).value;
      row, col := 0, 0;
      fg, bg := FG, BG;
    }

    function Settings(): Config
    {
      Config(psf, hasTable, glyphs, fb.info, rows, columns, fg, bg)
    }

    function Snapshot(): State
      reads this, fb.mem
    {
      State(row, col, fb.mem[..])
    }

    /** `write_glyph`. */
    method WriteGlyph(gid: nat) returns (r: Run<()>)
      modifies this, fb.mem
      ensures Outcome(r, Snapshot()) == GlyphStep(Settings(), old(Snapshot()), gid)
    {
      ghost var before := Snapshot();
      var g := Font.GlyphBitmap(psf, gid);
      if g.Panics? {
        return Panics(g.reason);
      }
      if g.value.Err? {
        return Returns(());
      }
      var (bpr, bitmap) := g.value.value;
      var fw := Font.Width(psf);
      if fw.Panics? {
        return Panics(fw.reason);
      }
      var fh := Font.Height(psf);
      if fh.Panics? {
        return Panics(fh.reason);
      }
      r := DrawGlyphAt(bitmap, bpr, fw.value, fh.value);
      assert GlyphStep(Settings(), before, gid) == DrawGlyph(Settings(), before, bitmap, bpr, fw.value, fh.value);
    }

    /** The drawing half of `write_glyph`, once the font has given the
        glyph's bitmap and its size. */
    method DrawGlyphAt(bitmap: seq<u8>, bpr: nat, fw: nat, fh: nat) returns (r: Run<()>)
      modifies this, fb.mem
      ensures Outcome(r, Snapshot()) == DrawGlyph(Settings(), old(Snapshot()), bitmap, bpr, fw, fh)
    {
      var w: u32, h: u32 := fw % U32_LIMIT, fh % U32_LIMIT;
      var rect := GfxRectangle.With(w, h, GlyphPixel(bitmap, bpr, fg, bg));
      if rect.Panics? {
        return Panics(rect.reason);
      }
      if !GlyphReadsInside(bitmap, bpr, w, h) {
        return Panics(Font.OUT_OF_BOUNDS);
      }
      assert rect.value.buf == GlyphRect(bitmap, bpr, fg, bg, w, h);
      r := fb.Blit(rect.value, WrapI32(Cell(col, fw)), WrapI32(Cell(row, fh)));
      if r.Panics? {
        return;
      }
      col := col + 1;
      if col >= columns {
        Newline();
      }
      assert Snapshot().mem == fb.mem[..];
    }

    /** `newline`. */
    method Newline()
      modifies this
      ensures row == old(row) + 1 && col == 0
    {
      col := 0;
      row := row + 1;
    }

    /** The inner loop of `write_str`: the glyphs of one line, one after
        the other. */
    method WriteLine(line: seq<char>) returns (r: Run<()>)
      modifies this, fb.mem
      ensures Outcome(r, Snapshot()) ==
        Text.RunOps(old(Snapshot()), Text.GlyphOps(line, GlyphOfChar(Settings())), Glyphs(Settings()), NewlineStep)
    {
      var c := Settings();
      var gof := GlyphOfChar(c);
      ghost var goal := Text.RunOps(Snapshot(), Text.GlyphOps(line, gof), Glyphs(c), NewlineStep);
      ghost var todo := Text.GlyphOps(line, gof);
      var ids := Font.StrToGlyphs(hasTable, glyphs, line);
      var j := 0;
      while j < |ids|
        invariant j <= |ids|
        invariant todo == Text.GlyphOps(line, gof)[j..]
        invariant Text.RunOps(Snapshot(), todo, Glyphs(c), NewlineStep) == goal
      {
        assert todo[0] == Text.Glyph(ids[j]);
        assert todo[1..] == Text.GlyphOps(line, gof)[j + 1..];
        Text.RunOpsFirst(Snapshot(), todo, Glyphs(c), NewlineStep);
        r := WriteGlyph(ids[j]);
        if r.Panics? {
          return;
        }
        todo := todo[1..];
        j := j + 1;
      }
      return Returns(());
    }

    /** `write_str`: cut the string at its newlines and write the lines. */
    method WriteStr(s: seq<char>) returns (r: Run<()>)
      modifies this, fb.mem
      ensures Outcome(r, Snapshot()) == WriteSpec(Settings(), old(Snapshot()), s)
    {
      var lines := Text.Split(s);
      Text.SplitOps(s, GlyphOfChar(Settings()));
      r := WriteLines(lines);
    }

    /** The loop of `write_str`: the glyphs of the first line, then a line
        break and the glyphs of each further line. */
    method WriteLines(lines: seq<seq<char>>) returns (r: Run<()>)
      requires |lines| >= 1
      modifies this, fb.mem
      ensures Outcome(r, Snapshot()) ==
        Text.RunOps(old(Snapshot()), Text.LineOps(lines, GlyphOfChar(Settings())), Glyphs(Settings()), NewlineStep)
    {
      var c := Settings();
      var gof := GlyphOfChar(c);
      Text.RunOpsAppend(Snapshot(), Text.GlyphOps(lines[0], gof), Text.LaterOps(lines[1..], gof), Glyphs(c), NewlineStep);
      ghost var goal := Text.RunOps(Snapshot(), Text.LineOps(lines, gof), Glyphs(c), NewlineStep);
      r := WriteLine(lines[0]);
      if r.Panics? {
        assert Outcome(r, Snapshot()) == goal;
        return;
      }
      var i := 1;
      while i < |lines|
        invariant 1 <= i <= |lines| && r.Returns?
        invariant Text.RunOps(Snapshot(), Text.LaterOps(lines[i..], gof), Glyphs(c), NewlineStep) == goal
      {
        assert lines[i..][1..] == lines[i + 1..];
        Text.RunOpsAppend(Snapshot(), [Text.Newline] + Text.GlyphOps(lines[i], gof), Text.LaterOps(lines[i + 1..], gof), Glyphs(c), NewlineStep);
        r := NextLine(lines[i]);
        if r.Panics? {
          assert Outcome(r, Snapshot()) == goal;
          return;
        }
        i := i + 1;
      }
      assert lines[i..] == [];
      assert Text.LaterOps(lines[i..], gof) == [];
      assert Outcome(r, Snapshot()) == goal;
    }

    /** One pass of the second loop of `write_str`: a line break, then the
        line's glyphs. */
    method NextLine(line: seq<char>) returns (r: Run<()>)
      modifies this, fb.mem
      ensures Outcome(r, Snapshot()) ==
        Text.RunOps(old(Snapshot()), [Text.Newline] + Text.GlyphOps(line, GlyphOfChar(Settings())), Glyphs(Settings()), NewlineStep)
    {
      var c := Settings();
      ghost var before := Snapshot();
      Text.RunOpsNewline(before, Text.GlyphOps(line, GlyphOfChar(c)), Glyphs(c), NewlineStep);
      Newline();
      assert Snapshot() == NewlineStep(before).value;
      r := WriteLine(line);
    }
  }
}
