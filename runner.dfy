/** The host-side test runner (`runner/src/main.rs`): how it decides it
    is running a test binary, how it turns QEMU's exit status into its
    own, and the filter it puts in front of a failed test's output. */
module Runner {
  import opened Base

  const UNWRAP_NONE: string := "called `Option::unwrap()` on a `None` value"

  /** The value the kernel writes to the debug-exit port on success. */
  const QEMU_EXIT_SUCCESS_CODE: int := 0x10

  /** QEMU's `isa-debug-exit` device ends QEMU with status
      `(value << 1) | 1` for the value written to its port. */
  function DebugExitStatus(value: nat): (status: nat)
    ensures status % 2 == 1
  {
    value * 2 + 1
  }

  /** The status the tests-passed comparison looks for. */
  const PASS_STATUS: nat := DebugExitStatus(QEMU_EXIT_SUCCESS_CODE)

  /** The runner's exit status in test mode, from QEMU's exit code (none
      when QEMU was killed by a signal). */
  function TestExitStatus(code: Option<int>): (r: int)
  {
    match code
    case None => -1
    case Some(c) => if c == PASS_STATUS then 0 else c
  }

  /** The test-mode exit status is 0 exactly when QEMU exited through the
      debug-exit port with the success value, or exited normally with 0;
      a killed QEMU gives -1; every other code is passed on unchanged. */
  lemma TestExitMeaning(code: Option<int>, value: nat)
    ensures PASS_STATUS == 33
    ensures TestExitStatus(code) == 0 <==> code == Some(33) || code == Some(0)
    ensures code.None? ==> TestExitStatus(code) == -1
    ensures code.Some? && code.value != 33 ==> TestExitStatus(code) == code.value
    ensures TestExitStatus(Some(DebugExitStatus(value))) == 0 <==> value == QEMU_EXIT_SUCCESS_CODE
  {
  }

  /** The runner's exit status outside test mode: QEMU's own code; a
      QEMU killed by a signal has none and the `unwrap` panics. */
  function RunExitStatus(code: Option<int>): (r: Run<int>)
    ensures r.Returns? <==> code.Some?
    ensures r.Returns? ==> r.value == code.value
  {
    match code
    case None => Panics(UNWRAP_NONE)
    case Some(c) => Returns(c)
  }

  /** A canonical path, as its components from the root. */
  type Path = seq<string>

  /** `Path::parent`: none for the root. */
  function Parent(p: Path): (r: Option<Path>)
    ensures r.Some? <==> |p| > 0
    ensures r.Some? ==> r.value + [p[|p| - 1]] == p
  {
    if |p| == 0 then None else Some(p[..|p| - 1])
  }

  /** `Path::file_name`: the last component, none for the root. */
  function FileName(p: Path): (r: Option<string>)
    ensures r.Some? <==> |p| > 0
  {
    if |p| == 0 then None else Some(p[|p| - 1])
  }

  /** `str::starts_with`. */
  predicate StartsWith(s: string, prefix: string)
  {
    |prefix| <= |s| && s[..|prefix|] == prefix
  }

  /** `Path::ends_with`: compares whole components, not characters. */
  predicate EndsWith(p: Path, child: Path)
  {
    |child| <= |p| && p[|p| - |child|..] == child
  }

  /** Test mode: the kernel binary's directory is named `rustdoctest...`
      or is a `deps` directory. A binary at the root, or directly under
      it, makes one of the `unwrap`s panic. */
  function TestMode(kernel: Path): (r: Run<bool>)
  {
    match Parent(kernel)
    case None => Panics(UNWRAP_NONE)
    case Some(parent) =>
      match FileName(parent)
      case None => Panics(UNWRAP_NONE)
      case Some(name) =>
        var isDoctest := StartsWith(name, "rustdoctest");
        Returns(isDoctest || EndsWith(parent, ["deps"]))
  }

  /** Test mode in terms of the binary's directory name alone: a path
      `dirs/dir/binary` is a test exactly when `dir` starts with
      `rustdoctest` or is `deps`, and shorter paths panic. */
  lemma TestModeMeaning(kernel: Path)
    ensures |kernel| < 2 <==> TestMode(kernel).Panics?
    ensures |kernel| >= 2 ==> var dir := kernel[|kernel| - 2];
      TestMode(kernel) == Returns(StartsWith(dir, "rustdoctest") || dir == "deps")
  {
    if |kernel| >= 2 {
      var parent := kernel[..|kernel| - 1];
      assert parent[|parent| - 1..] == [kernel[|kernel| - 2]];
      assert EndsWith(parent, ["deps"]) <==> kernel[|kernel| - 2] == "deps";
    }
  }

  /** The bytes the filter drops: anything past ASCII, and every ASCII
      control byte except the line feed. */
  predicate Dropped(c: u8)
  {
    var isAscii := c < 0x80;
    var isControl := c < 0x20 || c == 0x7F;
    !isAscii || (isControl && c != 0x0A)
  }

  /** `<[u8]>::split` by `Dropped`: the pieces between dropped bytes,
      one more than there are dropped bytes, empty ones included. */
  function Pieces(buf: seq<u8>): (r: seq<seq<u8>>)
    ensures |r| >= 1
    decreases |buf|
  {
    if buf == [] then [[]]
    else
      var rest := Pieces(buf[1..]);
      if Dropped(buf[0]) then [[]] + rest else [[buf[0]] + rest[0]] + rest[1..]
  }

  /** The pieces joined back together. */
  function Concat(pieces: seq<seq<u8>>): seq<u8>
    decreases |pieces|
  {
    if pieces == [] then [] else pieces[0] + Concat(pieces[1..])
  }

  /** The bytes of `buf` that are kept, in order. */
  function Kept(buf: seq<u8>): (r: seq<u8>)
    ensures |r| <= |buf|
    ensures forall i :: 0 <= i < |r| ==> !Dropped(r[i])
    decreases |buf|
  {
    if buf == [] then [] else (if Dropped(buf[0]) then [] else [buf[0]]) + Kept(buf[1..])
  }

  /** The number of dropped bytes. */
  function DroppedCount(buf: seq<u8>): nat
    decreases |buf|
  {
    if buf == [] then 0 else (if Dropped(buf[0]) then 1 else 0) + DroppedCount(buf[1..])
  }

  lemma {:induction false} ConcatAppend(a: seq<seq<u8>>, b: seq<seq<u8>>)
    ensures Concat(a + b) == Concat(a) + Concat(b)
    decreases |a|
  {
    if a != [] {
      assert (a + b)[0] == a[0] && (a + b)[1..] == a[1..] + b;
      ConcatAppend(a[1..], b);
    } else {
      assert a + b == b;
    }
  }

  /** Joining the pieces from `k` on is piece `k` then the rest. */
  lemma ConcatFrom(pieces: seq<seq<u8>>, k: nat)
    requires k < |pieces|
    ensures Concat(pieces[k..]) == pieces[k] + Concat(pieces[k + 1..])
  {
    assert pieces[k..][0] == pieces[k] && pieces[k..][1..] == pieces[k + 1..];
  }

  /** The kept bytes of the chunks from `k` on: those of chunk `k`, then
      those of the rest. */
  lemma KeptFrom(chunks: seq<seq<u8>>, k: nat)
    requires k < |chunks|
    ensures Kept(Concat(chunks[k..])) == Kept(chunks[k]) + Kept(Concat(chunks[k + 1..]))
  {
    ConcatFrom(chunks, k);
    KeptAppend(chunks[k], Concat(chunks[k + 1..]));
  }

  /** Splitting at the dropped bytes and writing every piece writes the
      kept bytes in order; no piece holds a dropped byte, and there is one
      piece more than there are dropped bytes. */
  lemma {:induction false} PiecesMeaning(buf: seq<u8>)
    ensures Concat(Pieces(buf)) == Kept(buf)
    ensures |Pieces(buf)| == DroppedCount(buf) + 1
    ensures forall k, i :: 0 <= k < |Pieces(buf)| && 0 <= i < |Pieces(buf)[k]| ==> !Dropped(Pieces(buf)[k][i])
    decreases |buf|
  {
    if buf != [] {
      var rest := Pieces(buf[1..]);
      PiecesMeaning(buf[1..]);
      if Dropped(buf[0]) {
        ConcatAppend([[]], rest);
        assert Concat([[]]) == [];
      } else {
        assert rest == [rest[0]] + rest[1..];
        ConcatAppend([rest[0]], rest[1..]);
        ConcatAppend([[buf[0]] + rest[0]], rest[1..]);
        assert Concat([rest[0]]) == rest[0];
        assert Concat([[buf[0]] + rest[0]]) == [buf[0]] + rest[0];
        forall k, i | 0 <= k < |Pieces(buf)| && 0 <= i < |Pieces(buf)[k]|
          ensures !Dropped(Pieces(buf)[k][i])
        {
          if k == 0 && i > 0 {
            assert Pieces(buf)[0][i] == rest[0][i - 1];
          } else if k > 0 {
            assert Pieces(buf)[k] == rest[k];
          }
        }
      }
    }
  }

  /** Filtering commutes with cutting the stream: whatever chunks
      `io::copy` hands the filter, the kept bytes are the same. */
  lemma {:induction false} KeptAppend(a: seq<u8>, b: seq<u8>)
    ensures Kept(a + b) == Kept(a) + Kept(b)
    decreases |a|
  {
    if a != [] {
      assert (a + b)[0] == a[0] && (a + b)[1..] == a[1..] + b;
      KeptAppend(a[1..], b);
    } else {
      assert a + b == b;
    }
  }

  /** `PrintableFilter`: the runner's standard output as the bytes
      written to it. */
  class PrintableFilter {
    var written: seq<u8>

    constructor ()
      ensures written == []
    {
      written := [];
    }

    /** `write`: each piece between dropped bytes goes to the inner
        writer with `write_all`; the whole buffer is reported consumed. */
    method Write(buf: seq<u8>) returns (n: nat)
      modifies this
      ensures written == old(written) + Kept(buf)
      ensures n == |buf|
    {
      var pieces := Pieces(buf);
      PiecesMeaning(buf);
      var k := 0;
      while k < |pieces|
        invariant k <= |pieces|
        invariant written + Concat(pieces[k..]) == old(written) + Kept(buf)
      {
        ConcatFrom(pieces, k);
        written := written + pieces[k];
        k := k + 1;
      }
      assert pieces[k..] == [];
      n := |buf|;
    }

    /** `io::copy` through the filter, one chunk per `write`: the output
        is the kept bytes of the whole stream, however it was cut. */
    method Copy(chunks: seq<seq<u8>>)
      modifies this
      ensures written == old(written) + Kept(Concat(chunks))
    {
      var k := 0;
      while k < |chunks|
        invariant k <= |chunks|
        invariant written + Kept(Concat(chunks[k..])) == old(written) + Kept(Concat(chunks))
      {
        KeptFrom(chunks, k);
        var n := Write(chunks[k]);
        k := k + 1;
      }
      assert chunks[k..] == [];
    }
  }
}
