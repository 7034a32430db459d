/** The first kernel's VGA text mode (`src/video/vga.rs`): the attribute
    byte of a character cell (`Style`) and the `Writer` that prints bytes
    on the bottom line of the 25 by 80 text buffer, moving every line up
    by one at a line break. The cursor's I/O ports are not modelled;
    `move_cursor`'s bounds check is. */
module Vga {
  import opened Base

  const INDEX_OOB: string := "index out of bounds"
  const CURSOR_ASSERT: string := "assertion failed: row < BUFFER_HEIGHT && col < BUFFER_WIDTH"

  const WIDTH: nat := 80
  const HEIGHT: nat := 25

  /** `FgColor`: the sixteen text colours, by their 4-bit code. */
  type FgColor = c: bv8 | c < 16

  /** `BgColor`: the eight background colours, by their 3-bit code. */
  type BgColor = c: bv8 | c < 8

  const WHITE: FgColor := 0xF
  const BLACK: BgColor := 0x0

  /** `Style::from_colors`: blink in bit 7, the background in bits 4 to 6,
      the foreground in bits 0 to 3. */
  function FromColors(fg: FgColor, bg: BgColor, blink: bool): bv8
  {
    (if blink then 0x80 else 0) | (bg << 4) | fg
  }

  /** The foreground a style byte gives: its low four bits. */
  function FgOf(s: bv8): FgColor
  {
    s & 0x0F
  }

  /** The background a style byte gives: bits 4 to 6. */
  function BgOf(s: bv8): BgColor
  {
    (s >> 4) & 0x07
  }

  /** Whether a style byte blinks: bit 7. */
  predicate Blinks(s: bv8)
  {
    s & 0x80 != 0
  }

  /** `from_colors` sets exactly the three fields it is given, and every
      style byte is the `from_colors` of its fields. */
  lemma FromColorsFields(fg: FgColor, bg: BgColor, blink: bool, s: bv8)
    ensures FgOf(FromColors(fg, bg, blink)) == fg && BgOf(FromColors(fg, bg, blink)) == bg
    ensures Blinks(FromColors(fg, bg, blink)) == blink
    ensures FromColors(FgOf(s), BgOf(s), Blinks(s)) == s
  {
  }

  /** `with_fg_color`: keep the high four bits, replace the low four. */
  function WithFgColor(s: bv8, fg: FgColor): (r: bv8)
    ensures r == FromColors(fg, BgOf(s), Blinks(s))
  {
    (s & 0xF0) | fg
  }

  /** `with_bg_color`: keep bit 7 and bits 0 to 3, replace bits 4 to 6. */
  function WithBgColor(s: bv8, bg: BgColor): (r: bv8)
    ensures r == FromColors(FgOf(s), bg, Blinks(s))
  {
    (s & 0x8F) | (bg << 4)
  }

  /** `with_blink` as written: clear bit 7, then OR in `0b1000_000` for
      blinking, which is 0x40, bit 6, not the blink bit. */
  function WithBlinkAsWritten(s: bv8, blink: bool): bv8
  {
    (s & 0x7F) | (if blink then 0x40 else 0)
  }

  /** Asking for blinking gives a style that does not blink: the blink bit
      is cleared, and the background's top bit is set instead. White on
      black becomes white on red. */
  lemma WithBlinkAsWrittenWrong(s: bv8)
    ensures !Blinks(WithBlinkAsWritten(s, true))
    ensures BgOf(WithBlinkAsWritten(s, true)) == BgOf(s) | 4 && FgOf(WithBlinkAsWritten(s, true)) == FgOf(s)
    ensures WithBlinkAsWritten(FromColors(WHITE, BLACK, false), true) == FromColors(WHITE, 4, false)
  {
  }

  /** `with_blink` as evidently intended: keep bits 0 to 6, set bit 7 to
      `blink`. Turning blinking off is the same as written. */
  function WithBlink(s: bv8, blink: bool): (r: bv8)
    ensures r == FromColors(FgOf(s), BgOf(s), blink)
    ensures !blink ==> r == WithBlinkAsWritten(s, blink)
  {
    (s & 0x7F) | (if blink then 0x80 else 0)
  }

  /** `ScreenChar`: a byte and its style. */
  datatype ScreenChar = ScreenChar(ch: u8, style: bv8)

  /** The 25 lines of 80 cells of the text buffer. */
  predicate IsScreen(rows: seq<seq<ScreenChar>>)
  {
    |rows| == HEIGHT && forall r :: 0 <= r < HEIGHT ==> |rows[r]| == WIDTH
  }

  /** A line of spaces in the given style. */
  function BlankRow(style: bv8): (r: seq<ScreenChar>)
    ensures |r| == WIDTH
  {
    seq(WIDTH, _ => ScreenChar(0x20, style))
  }

  /** What the writer shows and where its next byte goes. */
  datatype Display = Display(rows: seq<seq<ScreenChar>>, column: nat)

  /** `new_line`: every line moves up by one, the bottom line is blanked
      in the current style, and the column goes back to 0. */
  function NewLineSpec(d: Display, style: bv8): (r: Display)
    requires IsScreen(d.rows)
    ensures IsScreen(r.rows) && r.column == 0
  {
    Display(d.rows[1..] + [BlankRow(style)], 0)
  }

  /** `write_byte`: a line break for `'\n'`; any other byte goes in the
      bottom line at the column, after a line break when the line is
      full, and the column moves on. */
  function WriteByteSpec(d: Display, style: bv8, b: u8): (r: Display)
    requires IsScreen(d.rows)
    ensures IsScreen(r.rows)
  {
    if b == 0x0A then NewLineSpec(d, style)
    else
      var e := if d.column >= WIDTH then NewLineSpec(d, style) else d;
      Display(e.rows[HEIGHT - 1 := e.rows[HEIGHT - 1][e.column := ScreenChar(b, style)]], e.column + 1)
  }

  /** The byte `write_string` writes for `b`: `b` itself when it is
      printable ASCII or a line break, 0xFE (a square) otherwise. */
  function Shown(b: u8): u8
  {
    if 0x20 <= b <= 0x7E || b == 0x0A then b else 0xFE
  }

  /** `write_string`: each byte, as `Shown` makes it, in order. */
  function WriteStringSpec(d: Display, style: bv8, s: seq<u8>): (r: Display)
    requires IsScreen(d.rows)
    ensures IsScreen(r.rows)
    decreases |s|
  {
    if s == [] then d else WriteStringSpec(WriteByteSpec(d, style, Shown(s[0])), style, s[1..])
  }

  /** A byte the screen shows as text: printable ASCII or the square. */
  predicate Legible(b: u8)
  {
    0x20 <= b <= 0x7E || b == 0xFE
  }

  /** Every cell of the screen holds a legible byte. */
  predicate AllLegible(rows: seq<seq<ScreenChar>>)
    requires IsScreen(rows)
  {
    forall r, c :: 0 <= r < HEIGHT && 0 <= c < WIDTH ==> Legible(rows[r][c].ch)
  }

  /** `write_string` never puts a control byte or a byte past ASCII other
      than the square on the screen: a screen of legible bytes stays
      legible whatever the string. */
  lemma {:induction false} WriteStringLegible(d: Display, style: bv8, s: seq<u8>)
    requires IsScreen(d.rows) && AllLegible(d.rows)
    ensures AllLegible(WriteStringSpec(d, style, s).rows)
    decreases |s|
  {
    if s != [] {
      var b := Shown(s[0]);
      var e := WriteByteSpec(d, style, b);
      assert AllLegible(e.rows) by {
        assert AllLegible(NewLineSpec(d, style).rows) by {
          forall r, c | 0 <= r < HEIGHT && 0 <= c < WIDTH
            ensures Legible(NewLineSpec(d, style).rows[r][c].ch)
          {
            if r < HEIGHT - 1 {
              assert NewLineSpec(d, style).rows[r] == d.rows[r + 1];
            }
          }
        }
      }
      WriteStringLegible(e, style, s[1..]);
    }
  }

  /** Bytes without a line break written from column 0 of a line that
      has room for them land in that line from column 0. */
  lemma {:induction false} WriteLine(d: Display, style: bv8, s: seq<u8>, done: nat)
    requires IsScreen(d.rows) && done <= |s| <= WIDTH && d.column == done
    requires forall i :: 0 <= i < |s| ==> 0x20 <= s[i] <= 0x7E
    requires forall i :: 0 <= i < done ==> d.rows[HEIGHT - 1][i].ch == s[i]
    ensures var e := WriteStringSpec(d, style, s[done..]);
      && e.column == |s| && e.rows[..HEIGHT - 1] == d.rows[..HEIGHT - 1]
      && forall i :: 0 <= i < |s| ==> e.rows[HEIGHT - 1][i].ch == s[i]
    decreases |s| - done
  {
    if done < |s| {
      assert Shown(s[done]) == s[done];
      var e := WriteByteSpec(d, style, s[done]);
      assert s[done..][1..] == s[done + 1..];
      WriteLine(e, style, s, done + 1);
    }
  }

  /** `test_println_output`: after `"\n"`, a line `s` of printable bytes
      that fits, and `"\n"`, the line before the bottom one starts with
      `s`. */
  lemma PrintlnOutput(d: Display, style: bv8, s: seq<u8>)
    requires IsScreen(d.rows) && |s| <= WIDTH
    requires forall i :: 0 <= i < |s| ==> 0x20 <= s[i] <= 0x7E
    ensures forall i :: 0 <= i < |s| ==> WriteStringSpec(d, style, [0x0A] + s + [0x0A]).rows[HEIGHT - 2][i].ch == s[i]
  {
    var first := NewLineSpec(d, style);
    StringAppend(d, style, [0x0A], s);
    StringAppend(d, style, [0x0A] + s, [0x0A]);
    assert WriteStringSpec(d, style, [0x0A]) == first;
    assert s[0..] == s;
    WriteLine(first, style, s, 0);
    var written := WriteStringSpec(first, style, s);
    assert WriteStringSpec(written, style, [0x0A]) == NewLineSpec(written, style);
  }

  /** Writing two strings one after the other is writing their
      concatenation. */
  lemma {:induction false} StringAppend(d: Display, style: bv8, s: seq<u8>, t: seq<u8>)
    requires IsScreen(d.rows)
    ensures WriteStringSpec(d, style, s + t) == WriteStringSpec(WriteStringSpec(d, style, s), style, t)
    decreases |s|
  {
    if s != [] {
      assert (s + t)[0] == s[0] && (s + t)[1..] == s[1..] + t;
      var e := WriteByteSpec(d, style, Shown(s[0]));
      StringAppend(e, style, s[1..], t);
      assert WriteStringSpec(d, style, s + t) == WriteStringSpec(e, style, s[1..] + t);
      assert WriteStringSpec(d, style, s) == WriteStringSpec(e, style, s[1..]);
    } else {
      assert s + t == t;
    }
  }

  /** `Writer`: the column of the next byte, the current style and the
      text buffer. */
  class Writer {
    var column: nat
    var style: bv8
    const buffer: array2<ScreenChar>

    /** The buffer is the 25 by 80 VGA text buffer. */
    predicate Valid()
    {
      buffer.Length0 == HEIGHT && buffer.Length1 == WIDTH
    }

    /** The statically made `WRITER`: white on black, not blinking, at
        column 0, over the buffer's present contents. */
    constructor (contents: seq<seq<ScreenChar>>)
      requires IsScreen(contents)
      ensures Valid() && fresh(buffer) && Screen() == contents
      ensures column == 0 && style == FromColors(WHITE, BLACK, false)
    {
      column := 0;
      style := FromColors(WHITE, BLACK, false);
      buffer := new ScreenChar[HEIGHT, WIDTH]((r, c) requires 0 <= r < HEIGHT && 0 <= c < WIDTH => contents[r][c]);
      new;
      assert forall r | 0 <= r < HEIGHT :: Screen()[r] == contents[r];
    }

    /** The buffer's lines. */
    function Screen(): (rows: seq<seq<ScreenChar>>)
      requires Valid()
      reads buffer
      ensures IsScreen(rows)
    {
      seq(HEIGHT, r requires 0 <= r < HEIGHT reads buffer => seq(WIDTH, c requires 0 <= c < WIDTH reads buffer => buffer[r, c]))
    }

    function Shows(): Display
      requires Valid()
      reads this, buffer
    {
      Display(Screen(), column)
    }

    /** `move_cursor`: the position must be on the screen. The port
        writes that place the hardware cursor are not modelled, so what is
        left changes no state. */
    static function MoveCursor(row: nat, col: nat): (r: Run<()>)
      ensures r.Returns? <==> row < HEIGHT && col < WIDTH
    {
      if row < HEIGHT && col < WIDTH then Returns(()) else Panics(CURSOR_ASSERT)
    }

    /** `clear_row`: spaces in the current style across line `row`; a
        line past the buffer panics at its first cell. */
    method ClearRow(row: nat) returns (r: Run<()>)
      requires Valid()
      modifies buffer
      ensures row < HEIGHT ==> r.Returns? && Screen() == old(Screen())[row := BlankRow(style)]
      ensures row >= HEIGHT ==> r == Panics(INDEX_OOB) && Screen() == old(Screen())
    {
      if row >= HEIGHT {
        return Panics(INDEX_OOB);
      }
      ghost var start := Screen();
      var blank := ScreenChar(0x20, style);
      var col := 0;
      while col < WIDTH
        invariant col <= WIDTH
        invariant forall r, c :: 0 <= r < HEIGHT && 0 <= c < WIDTH ==>
          buffer[r, c] == if r == row && c < col then blank else start[r][c]
      {
        buffer[row, col] := blank;
        col := col + 1;
      }
      assert forall r | 0 <= r < HEIGHT :: Screen()[r] == start[row := BlankRow(style)][r];
      return Returns(());
    }

    /** `new_line`: copy each line up by one, blank the bottom line, and
        put the column and the cursor at the bottom line's start. */
    method NewLine() returns (r: Run<()>)
      requires Valid()
      modifies this, buffer
      ensures r.Returns? && Shows() == NewLineSpec(old(Shows()), style) && style == old(style)
    {
      ghost var start := Screen();
      var row := 1;
      while row < HEIGHT
        invariant 1 <= row <= HEIGHT && style == old(style)
        invariant forall r, c :: 0 <= r < HEIGHT && 0 <= c < WIDTH ==>
          buffer[r, c] == if r < row - 1 then start[r + 1][c] else start[r][c]
      {
        var col := 0;
        while col < WIDTH
          invariant col <= WIDTH && style == old(style)
          invariant forall r, c :: 0 <= r < HEIGHT && 0 <= c < WIDTH ==>
            buffer[r, c] == if r < row - 1 || (r == row - 1 && c < col) then start[r + 1][c] else start[r][c]
        {
          var ch := buffer[row, col];
          buffer[row - 1, col] := ch;
          col := col + 1;
        }
        row := row + 1;
      }
      assert forall r | 0 <= r < HEIGHT :: Screen()[r] == (start[1..] + [start[HEIGHT - 1]])[r];
      r := ClearRow(HEIGHT - 1);
      assert Screen() == (start[1..] + [start[HEIGHT - 1]])[HEIGHT - 1 := BlankRow(style)];
      assert Screen() == start[1..] + [BlankRow(style)];
      column := 0;
      r := MoveCursor(HEIGHT - 1, 0);
    }

    /** The volatile store of one cell. */
    method SetCell(row: nat, col: nat, ch: ScreenChar)
      requires Valid() && row < HEIGHT && col < WIDTH
      modifies buffer
      ensures Screen() == old(Screen())[row := old(Screen())[row][col := ch]]
    {
      ghost var before := Screen();
      buffer[row, col] := ch;
      assert forall r | 0 <= r < HEIGHT :: Screen()[r] == before[row := before[row][col := ch]][r];
    }

    /** `write_byte`. The cursor check never fails. */
    method WriteByte(b: u8) returns (r: Run<()>)
      requires Valid()
      modifies this, buffer
      ensures r.Returns? && Shows() == WriteByteSpec(old(Shows()), style, b) && style == old(style)
    {
      if b == 0x0A {
        r := NewLine();
        return;
      }
      ghost var e := if column >= WIDTH then NewLineSpec(Shows(), style) else Shows();
      if column >= WIDTH {
        r := NewLine();
      }
      assert Shows() == e;
      var row := HEIGHT - 1;
      var col := column;
      SetCell(row, col, ScreenChar(b, style));
      column := column + 1;
      r := Returns(());
      if column < WIDTH {
        r := MoveCursor(row, col + 1);
      }
    }

    /** `write_string`. */
    method WriteString(s: seq<u8>) returns (r: Run<()>)
      requires Valid()
      modifies this, buffer
      ensures r.Returns? && Shows() == WriteStringSpec(old(Shows()), style, s) && style == old(style)
    {
      ghost var goal := WriteStringSpec(Shows(), style, s);
      var i := 0;
      while i < |s|
        invariant i <= |s| && style == old(style)
        invariant WriteStringSpec(Shows(), style, s[i..]) == goal
      {
        assert s[i..][1..] == s[i + 1..];
        r := WriteByte(Shown(s[i]));
        i := i + 1;
      }
      return Returns(());
    }
  }
}
