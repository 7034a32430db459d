/** What the text consoles share (`kernel/src/video/console.rs` and both
    `vesa.rs`): how `write_str` cuts a string at its newlines and turns it
    into glyphs and line breaks, how those steps are run one after the
    other, where the cursor goes after a glyph, and which bit of a glyph
    bitmap lights a pixel. */
module Text {
  import opened Base

  /** One step of `write_str`: break the line, or draw glyph `gid`. */
  datatype Op = Newline | Glyph(gid: nat)

  /** `str::split('\n')`: the pieces between the newlines, one more piece
      than there are newlines. */
  function Split(s: seq<char>): (r: seq<seq<char>>)
    ensures |r| >= 1
    decreases |s|
  {
    if s == [] then [[]]
    else
      var rest := Split(s[1..]);
      if s[0] == '\n' then [[]] + rest
      else [[s[0]] + rest[0]] + rest[1..]
  }

  /** The pieces glued back together with a newline between each two. */
  function Join(lines: seq<seq<char>>): seq<char>
    decreases |lines|
  {
    if lines == [] then []
    else if |lines| == 1 then lines[0]
    else lines[0] + ['\n'] + Join(lines[1..])
  }

  predicate NoNewline(line: seq<char>)
  {
    forall i :: 0 <= i < |line| ==> line[i] != '\n'
  }

  /** Splitting loses nothing: the pieces hold no newline and join back
      into the string. */
  lemma {:induction false} SplitJoin(s: seq<char>)
    ensures Join(Split(s)) == s
    ensures forall k :: 0 <= k < |Split(s)| ==> NoNewline(Split(s)[k])
    decreases |s|
  {
    if s != [] {
      var rest := Split(s[1..]);
      SplitJoin(s[1..]);
      assert s == [s[0]] + s[1..];
      if s[0] == '\n' {
        JoinNewlineCons(s[1..], rest);
      } else {
        JoinCharCons(s[0], s[1..], rest);
      }
    }
  }

  /** A newline in front of a split string adds an empty first piece. */
  lemma JoinNewlineCons(tail: seq<char>, rest: seq<seq<char>>)
    requires |rest| >= 1 && Join(rest) == tail
    requires forall k :: 0 <= k < |rest| ==> NoNewline(rest[k])
    ensures Join([[]] + rest) == ['\n'] + tail
    ensures forall k :: 0 <= k < |[[]] + rest| ==> NoNewline(([[]] + rest)[k])
  {
    assert ([[]] + rest)[1..] == rest;
  }

  /** Any other character in front of a split string goes to the front of
      its first piece. */
  lemma JoinCharCons(c: char, tail: seq<char>, rest: seq<seq<char>>)
    requires c != '\n' && |rest| >= 1 && Join(rest) == tail
    requires forall k :: 0 <= k < |rest| ==> NoNewline(rest[k])
    ensures Join([[c] + rest[0]] + rest[1..]) == [c] + tail
    ensures forall k :: 0 <= k < |rest| ==> NoNewline(([[c] + rest[0]] + rest[1..])[k])
  {
    var first, later := [c] + rest[0], rest[1..];
    var pieces := [first] + later;
    if later == [] {
      assert |pieces| == 1 && |rest| == 1;
      assert Join(pieces) == first;
    } else {
      var j := Join(later);
      assert pieces[1..] == later && rest[1..] == later;
      assert Join(pieces) == first + ['\n'] + j;
      assert tail == rest[0] + ['\n'] + j;
      AppendAssoc([c], rest[0], ['\n']);
      AppendAssoc([c], rest[0] + ['\n'], j);
    }
    CharConsNoNewline(c, rest, pieces);
  }

  /** The pieces keep holding no newline when a character other than a
      newline goes to the front of the first one. */
  lemma CharConsNoNewline(c: char, rest: seq<seq<char>>, pieces: seq<seq<char>>)
    requires c != '\n' && |rest| >= 1 && pieces == [[c] + rest[0]] + rest[1..]
    requires forall k :: 0 <= k < |rest| ==> NoNewline(rest[k])
    ensures forall k :: 0 <= k < |rest| ==> NoNewline(pieces[k])
  {
    assert NoNewline(rest[0]);
    forall k | 0 <= k < |rest|
      ensures NoNewline(pieces[k])
    {
      if k > 0 {
        assert pieces[k] == rest[k];
      }
    }
  }

  /** And nothing is invented: pieces without newlines, joined and split
      again, come back as they were. */
  lemma {:induction false} JoinSplit(lines: seq<seq<char>>)
    requires |lines| >= 1
    requires forall k :: 0 <= k < |lines| ==> NoNewline(lines[k])
    ensures Split(Join(lines)) == lines
    decreases |lines|, |lines[0]|
  {
    var first := lines[0];
    if first == [] {
      if |lines| > 1 {
        JoinSplit(lines[1..]);
        assert Join(lines) == ['\n'] + Join(lines[1..]);
        assert Join(lines)[1..] == Join(lines[1..]);
        assert [[]] + lines[1..] == lines;
      }
    } else {
      var shorter := [first[1..]] + lines[1..];
      assert shorter[1..] == lines[1..];
      JoinSplit(shorter);
      var j := Join(lines);
      if |lines| == 1 {
        assert j == first && Join(shorter) == first[1..];
      } else {
        assert j == first + ['\n'] + Join(lines[1..]);
        assert Join(shorter) == first[1..] + ['\n'] + Join(lines[1..]);
      }
      assert j[0] == first[0] && j[1..] == Join(shorter);
      assert first[0] != '\n' by {
        assert NoNewline(lines[0]);
      }
      assert [first[0]] + first[1..] == first;
      assert [[first[0]] + shorter[0]] + shorter[1..] == lines;
    }
  }

  /** One glyph per character of a line. */
  function GlyphOps(line: seq<char>, glyphOf: char -> nat): (r: seq<Op>)
    ensures |r| == |line|
  {
    seq(|line|, i requires 0 <= i < |line| => Glyph(glyphOf(line[i])))
  }

  /** `write_str` as the consoles write it: the glyphs of the first line,
      then for each further line a line break and its glyphs. */
  function LineOps(lines: seq<seq<char>>, glyphOf: char -> nat): seq<Op>
  {
    if lines == [] then [] else GlyphOps(lines[0], glyphOf) + LaterOps(lines[1..], glyphOf)
  }

  /** A line break and the glyphs, for each of `lines`. */
  function LaterOps(lines: seq<seq<char>>, glyphOf: char -> nat): seq<Op>
    decreases |lines|
  {
    if lines == [] then []
    else [Newline] + GlyphOps(lines[0], glyphOf) + LaterOps(lines[1..], glyphOf)
  }

  /** The reference reading of `write_str`, character by character: a
      newline breaks the line and any other character is drawn. */
  function CharOps(s: seq<char>, glyphOf: char -> nat): (r: seq<Op>)
    ensures |r| == |s|
  {
    seq(|s|, i requires 0 <= i < |s| => if s[i] == '\n' then Newline else Glyph(glyphOf(s[i])))
  }

  /** Cutting the string into lines and breaking between them does the
      same steps as reading it one character at a time. */
  lemma {:induction false} SplitOps(s: seq<char>, glyphOf: char -> nat)
    ensures LineOps(Split(s), glyphOf) == CharOps(s, glyphOf)
    decreases |s|
  {
    if s != [] {
      var rest := Split(s[1..]);
      SplitOps(s[1..], glyphOf);
      var tail := CharOps(s[1..], glyphOf);
      assert CharOps(s, glyphOf) == [CharOps(s, glyphOf)[0]] + tail;
      if s[0] == '\n' {
        assert ([[]] + rest)[1..] == rest;
        assert LaterOps(rest, glyphOf) == [Newline] + LineOps(rest, glyphOf);
      } else {
        var first := [s[0]] + rest[0];
        assert ([first] + rest[1..])[1..] == rest[1..];
        assert GlyphOps(first, glyphOf) == [Glyph(glyphOf(s[0]))] + GlyphOps(rest[0], glyphOf);
      }
    }
  }

  /** A further line's steps come after the steps of the lines before it. */
  lemma {:induction false} LaterOpsSnoc(lines: seq<seq<char>>, line: seq<char>, glyphOf: char -> nat)
    ensures LaterOps(lines + [line], glyphOf) == LaterOps(lines, glyphOf) + [Newline] + GlyphOps(line, glyphOf)
    decreases |lines|
  {
    if lines == [] {
      assert LaterOps([line][1..], glyphOf) == [];
    } else {
      assert (lines + [line])[1..] == lines[1..] + [line];
      LaterOpsSnoc(lines[1..], line, glyphOf);
    }
  }

  /** The steps of the lines up to `i + 1`: those up to `i`, a break when
      line `i` is not the first, and line `i`'s glyphs. */
  lemma LineOpsNext(lines: seq<seq<char>>, i: nat, glyphOf: char -> nat)
    requires i < |lines|
    ensures LineOps(lines[..i + 1], glyphOf) ==
      if i == 0 then GlyphOps(lines[0], glyphOf)
      else LineOps(lines[..i], glyphOf) + [Newline] + GlyphOps(lines[i], glyphOf)
  {
    if i == 0 {
      assert lines[..1][1..] == [];
    } else {
      assert lines[..i + 1][1..] == lines[..i][1..] + [lines[i]];
      LaterOpsSnoc(lines[..i][1..], lines[i], glyphOf);
    }
  }

  /** The steps `ops` run one after the other from state `st`: a glyph by
      `glyph`, a break by `newline`; the first panic ends the run. */
  function RunOps<S>(st: S, ops: seq<Op>, glyph: (S, nat) -> Run<S>, newline: S -> Run<S>): Run<S>
    decreases |ops|
  {
    if ops == [] then Returns(st)
    else
      var step := if ops[0].Newline? then newline(st) else glyph(st, ops[0].gid);
      match step
      case Panics(m) => Panics(m)
      case Returns(next) => RunOps(next, ops[1..], glyph, newline)
  }

  /** A run that starts with a line break whose step returns goes on with
      the rest from the state that step produced. */
  lemma RunOpsNewline<S>(st: S, ops: seq<Op>, glyph: (S, nat) -> Run<S>, newline: S -> Run<S>)
    requires newline(st).Returns?
    ensures RunOps(st, [Newline] + ops, glyph, newline) == RunOps(newline(st).value, ops, glyph, newline)
  {
    assert ([Newline] + ops)[1..] == ops;
  }

  /** A non-empty run: its first step, then the others from where that
      step ended. */
  lemma RunOpsFirst<S>(st: S, ops: seq<Op>, glyph: (S, nat) -> Run<S>, newline: S -> Run<S>)
    requires ops != []
    ensures RunOps(st, ops, glyph, newline) ==
      match (if ops[0].Newline? then newline(st) else glyph(st, ops[0].gid))
      case Panics(m) => Panics(m)
      case Returns(next) => RunOps(next, ops[1..], glyph, newline)
  {
  }

  /** Running `a + b` runs `a`, then `b` from where `a` ended. */
  lemma {:induction false} RunOpsAppend<S>(st: S, a: seq<Op>, b: seq<Op>, glyph: (S, nat) -> Run<S>, newline: S -> Run<S>)
    ensures RunOps(st, a + b, glyph, newline) ==
      match RunOps(st, a, glyph, newline)
      case Panics(m) => Panics(m)
      case Returns(mid) => RunOps(mid, b, glyph, newline)
    decreases |a|
  {
    if a != [] {
      assert (a + b)[0] == a[0] && (a + b)[1..] == a[1..] + b;
      var step := if a[0].Newline? then newline(st) else glyph(st, a[0].gid);
      if step.Returns? {
        RunOpsAppend(step.value, a[1..], b, glyph, newline);
      }
    } else {
      assert a + b == b;
    }
  }

  /** Running one more step. */
  lemma RunOpsSnoc<S>(st: S, a: seq<Op>, op: Op, glyph: (S, nat) -> Run<S>, newline: S -> Run<S>)
    ensures RunOps(st, a + [op], glyph, newline) ==
      match RunOps(st, a, glyph, newline)
      case Panics(m) => Panics(m)
      case Returns(mid) => if op.Newline? then newline(mid) else glyph(mid, op.gid)
  {
    RunOpsAppend(st, a, [op], glyph, newline);
    if RunOps(st, a, glyph, newline).Returns? {
      var mid := RunOps(st, a, glyph, newline).value;
      var step := if op.Newline? then newline(mid) else glyph(mid, op.gid);
      if step.Returns? {
        assert RunOps(step.value, [op][1..], glyph, newline) == Returns(step.value);
      }
    }
  }

  /** The cursor after a glyph: the next column, or the start of the next
      line when the row is full (`newline` is then called). */
  function Advance(row: nat, col: nat, columns: nat): (r: (nat, nat))
    ensures col < columns ==> r.1 < columns
    ensures r == (row, col + 1) || r == (row + 1, 0)
  {
    if col + 1 >= columns then (row + 1, 0) else (row, col + 1)
  }

  /** Glyph bitmaps store each row in `bytesPerRow` bytes, leftmost pixel
      in the high bit: pixel `(x, y)` is lit when bit `7 - x % 8` of byte
      `y * bytesPerRow + x / 8` is set. A pixel past the bitmap is dark. */
  function GlyphBit(bitmap: seq<u8>, bytesPerRow: nat, x: nat, y: nat): bool
  {
    var k := BitmapIndex(bytesPerRow, x, y);
    k < |bitmap| && BitSet(bitmap[k], 7 - x % 8)
  }

  /** Bit `k` of byte `b` is set. */
  predicate BitSet(b: nat, k: nat)
    requires k < 8
  {
    (b / Mask(k)) % 2 == 1
  }

  /** `y * bytes_per_row + x / 8`. */
  function BitmapIndex(bytesPerRow: nat, x: nat, y: nat): nat
  {
    y * bytesPerRow + x / 8
  }

  /** `1 << k` for a bit `k` of a byte. */
  function Mask(k: nat): (r: nat)
    requires k < 8
    ensures r > 0
  {
    match k
    case 0 => 1 case 1 => 2 case 2 => 4 case 3 => 8
    case 4 => 16 case 5 => 32 case 6 => 64 case _ => 128
  }

  /** Byte `j` of row `y` holds pixels `8 * j` to `8 * j + 7` of that row,
      the leftmost in its high bit. */
  lemma {:induction false} GlyphBitLayout(bitmap: seq<u8>, bytesPerRow: nat, y: nat, j: nat, i: nat)
    requires i < 8 && y * bytesPerRow + j < |bitmap|
    ensures GlyphBit(bitmap, bytesPerRow, 8 * j + i, y) <==> BitSet(bitmap[y * bytesPerRow + j], 7 - i)
  {
    DivModUnique(8 * j + i, 8, j, i);
  }

  /** Bit 7 of a byte is set exactly when the byte is at least 0x80, bit 0
      when it is odd. */
  lemma HighLowBit(b: u8)
    ensures BitSet(b, 7) <==> b >= 0x80
    ensures BitSet(b, 0) <==> b % 2 == 1
  {
    if b >= 0x80 {
      DivModUnique(b, 128, 1, b - 128);
    } else {
      DivModUnique(b, 128, 0, b);
    }
  }

  /** A glyph `width` pixels wide and `height` rows high fits a bitmap of
      `charsize` bytes when each row's bytes hold `width` bits: every pixel
      then reads a byte inside the bitmap. */
  lemma BitmapIndexInRange(bytesPerRow: nat, height: nat, width: nat, x: nat, y: nat)
    requires x < width && y < height && width <= bytesPerRow * 8
    ensures BitmapIndex(bytesPerRow, x, y) < height * bytesPerRow
  {
    assert x / 8 < bytesPerRow;
    MulMono(bytesPerRow, y + 1, height);
  }
}
