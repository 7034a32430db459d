/** The Rust user runtime of `libstd/src/lib.rs`: `_start`, the panic
    handler, `lang_start` and `process::abort`, all over the
    struct-pointer convention. */
module LibStd {
  import opened Base
  import opened Uapi

  type i32 = x: int | -0x8000_0000 <= x < 0x8000_0000

  /** `x as i8`: the low eight bits read as two's complement. */
  function AsI8(x: i32): (r: i8)
    ensures (x - r) % 0x100 == 0
  {
    var low := x % 0x100;
    if low < 0x80 then low else low - 0x100
  }

  /** The truncation is the identity on values that already fit, and only
      the low byte of the input matters. */
  lemma AsI8Properties(x: i32, y: i32)
    ensures -0x80 <= x < 0x80 ==> AsI8(x) == x
    ensures x % 0x100 == y % 0x100 ==> AsI8(x) == AsI8(y)
  {
  }

  /** `loop { exit(code, None) }`, observed after `turns` turns: one exit
      request per turn and nothing else, whatever the kernel answers. */
  method ExitLoop(k: Kernel, m: Machine, code: i8, turns: nat) returns (after: Machine)
    ensures after.traps == m.traps + Repeat(Exit(code), turns)
  {
    after := m;
    var i := 0;
    while i < turns
      invariant i <= turns
      invariant after.traps == m.traps + Repeat(Exit(code), i)
    {
      var ignored;
      ignored, after := SysExit(k, after, code, null);
      i := i + 1;
    }
  }

  /** `_start`: calls `main` once (its result is `mainResult`), truncates it
      to `i8` and repeats `exit` with that code forever. */
  method Start(k: Kernel, m: Machine, mainResult: i32, turns: nat) returns (after: Machine)
    ensures after.traps == m.traps + Repeat(Exit(AsI8(mainResult)), turns)
  {
    var exitCode := AsI8(mainResult);
    after := ExitLoop(k, m, exitCode, turns);
  }

  /** The panic handler: `exit(-1, None)` forever. */
  method Panic(k: Kernel, m: Machine, turns: nat) returns (after: Machine)
    ensures after.traps == m.traps + Repeat(Exit(-1), turns)
  {
    after := ExitLoop(k, m, -1, turns);
  }

  /** `process::abort`: `exit(0, None)` forever. */
  method Abort(k: Kernel, m: Machine, turns: nat) returns (after: Machine)
    ensures after.traps == m.traps + Repeat(Exit(0), turns)
  {
    after := ExitLoop(k, m, 0, turns);
  }

  /** `lang_start`: runs `main` exactly once on the program state and
      returns 0 whatever `main` returned. */
  function LangStart<S, T>(main: S -> (T, S), state: S): (r: (int, S))
    ensures r.0 == 0 && r.1 == main(state).1
  {
    var (_, after) := main(state);
    (0, after)
  }
}
