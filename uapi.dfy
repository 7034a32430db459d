/** The struct-pointer convention of `kernel-uapi/src/syscall.rs`: the
    `Syscall` enum a user program hands to the kernel by address, the
    result it gets back, the `From` conversions and the generated wrappers
    with their optional out slot; and the feature-gated panic handler of
    `kernel-uapi/src/lib.rs`. */
module Uapi {
  import opened Base

  /** One request, as the generated `#[repr(C)] enum Syscall`. */
  datatype Syscall = Ping | PutChar(c: u8) | GetKbdCode | SleepMs(durationMs: u32) | Exit(code: i8)

  /** `SyscallErrorCode`. */
  datatype ErrorCode = Ok | InvalidArgumentError

  /** The `#[repr(u32)]` discriminant: `Ok` is 0 and `InvalidArgumentError`
      is 1. */
  function ErrorCodeValue(e: ErrorCode): (v: u32)
    ensures v == 0 <==> e == ErrorCode.Ok
    ensures v <= 1
  {
    match e
    case Ok => 0
    case InvalidArgumentError => 1
  }

  /** `SyscallResultInner`, a union whose fields are `()` for every
      operation but `get_kbd_code`, whose field is a `u8`: its only
      storage is that byte. */
  datatype Inner = Inner(getKbdCode: u8)

  datatype SyscallResult = Ok(inner: Inner) | Err(code: ErrorCode)

  /** `impl From<Result<SyscallResultInner, SyscallErrorCode>> for SyscallResult`. */
  function FromResult(r: Result<Inner, ErrorCode>): (s: SyscallResult)
    ensures s.Ok? <==> r.Ok?
  {
    match r
    case Ok(v) => SyscallResult.Ok(v)
    case Err(e) => SyscallResult.Err(e)
  }

  /** `impl From<SyscallResult> for Result<SyscallResultInner, SyscallErrorCode>`. */
  function ToResult(s: SyscallResult): (r: Result<Inner, ErrorCode>)
    ensures r.Ok? <==> s.Ok?
  {
    match s
    case Ok(v) => Result.Ok(v)
    case Err(e) => Result.Err(e)
  }

  /** The two conversions are mutual inverses. */
  lemma ConversionsInverse(r: Result<Inner, ErrorCode>, s: SyscallResult)
    ensures ToResult(FromResult(r)) == r
    ensures FromResult(ToResult(s)) == s
  {
  }

  /** What the kernel writes into the result slot for a request. */
  type Kernel = Syscall -> SyscallResult

  /** A user thread seen through this convention: every request it has
      trapped with, oldest first. */
  datatype Machine = Machine(traps: seq<Syscall>)

  /** `raw_syscall`: the request's address goes in rdi and the result
      slot's in rsi; one trap; the slot then holds the kernel's answer. */
  function RawSyscall(k: Kernel, m: Machine, call: Syscall): (r: (SyscallResult, Machine))
    ensures r.1.traps == m.traps + [call]
    ensures r.0 == k(call)
  {
    (k(call), Machine(m.traps + [call]))
  }

  /** `MaybeUninit<T>` behind the wrappers' `Option<&mut ...>`:
      `contents` is `None` while uninitialised. */
  class Slot<T> {
    var contents: Option<T>

    constructor Uninit()
      ensures contents == None
    {
      contents := None;
    }
  }

  /** The body every generated wrapper shares: `read` picks the wrapper's
      field out of the union. */
  method Call<T>(k: Kernel, m: Machine, call: Syscall, read: Inner -> T, out: Slot?<T>)
    returns (code: ErrorCode, after: Machine)
    modifies out
    ensures after.traps == m.traps + [call]
    ensures k(call).Ok? ==> code == ErrorCode.Ok && (out != null ==> out.contents == Some(read(k(call).inner)))
    ensures k(call).Err? ==> code == k(call).code && (out != null ==> out.contents == old(out.contents))
  {
    var res := RawSyscall(k, m, call);
    after := res.1;
    match res.0
    case Ok(v) =>
      if out != null {
        out.contents := Some(read(v));
      }
      code := ErrorCode.Ok;
    case Err(e) =>
      code := e;
  }

  /** `ping(out)`. */
  method SysPing(k: Kernel, m: Machine, out: Slot?<()>) returns (code: ErrorCode, after: Machine)
    modifies out
    ensures after.traps == m.traps + [Ping]
    ensures code == (if k(Ping).Ok? then ErrorCode.Ok else k(Ping).code)
    ensures out != null && k(Ping).Ok? ==> out.contents == Some(())
    ensures out != null && k(Ping).Err? ==> out.contents == old(out.contents)
  {
    code, after := Call(k, m, Ping, (v: Inner) => (), out);
  }

  /** `put_char(c, out)`. */
  method SysPutChar(k: Kernel, m: Machine, c: u8, out: Slot?<()>) returns (code: ErrorCode, after: Machine)
    modifies out
    ensures after.traps == m.traps + [PutChar(c)]
    ensures code == (if k(PutChar(c)).Ok? then ErrorCode.Ok else k(PutChar(c)).code)
    ensures out != null && k(PutChar(c)).Ok? ==> out.contents == Some(())
    ensures out != null && k(PutChar(c)).Err? ==> out.contents == old(out.contents)
  {
    code, after := Call(k, m, PutChar(c), (v: Inner) => (), out);
  }

  /** `get_kbd_code(out)`: the only wrapper whose slot receives a value
      from the kernel. */
  method SysGetKbdCode(k: Kernel, m: Machine, out: Slot?<u8>) returns (code: ErrorCode, after: Machine)
    modifies out
    ensures after.traps == m.traps + [GetKbdCode]
    ensures code == (if k(GetKbdCode).Ok? then ErrorCode.Ok else k(GetKbdCode).code)
    ensures out != null && k(GetKbdCode).Ok? ==> out.contents == Some(k(GetKbdCode).inner.getKbdCode)
    ensures out != null && k(GetKbdCode).Err? ==> out.contents == old(out.contents)
  {
    code, after := Call(k, m, GetKbdCode, (v: Inner) => v.getKbdCode, out);
  }

  /** `sleep_ms(duration_ms, out)`. */
  method SysSleepMs(k: Kernel, m: Machine, durationMs: u32, out: Slot?<()>) returns (code: ErrorCode, after: Machine)
    modifies out
    ensures after.traps == m.traps + [SleepMs(durationMs)]
    ensures code == (if k(SleepMs(durationMs)).Ok? then ErrorCode.Ok else k(SleepMs(durationMs)).code)
    ensures out != null && k(SleepMs(durationMs)).Ok? ==> out.contents == Some(())
    ensures out != null && k(SleepMs(durationMs)).Err? ==> out.contents == old(out.contents)
  {
    code, after := Call(k, m, SleepMs(durationMs), (v: Inner) => (), out);
  }

  /** `exit(code, out)`. */
  method SysExit(k: Kernel, m: Machine, exitCode: i8, out: Slot?<()>) returns (code: ErrorCode, after: Machine)
    modifies out
    ensures after.traps == m.traps + [Exit(exitCode)]
    ensures code == (if k(Exit(exitCode)).Ok? then ErrorCode.Ok else k(Exit(exitCode)).code)
    ensures out != null && k(Exit(exitCode)).Ok? ==> out.contents == Some(())
    ensures out != null && k(Exit(exitCode)).Err? ==> out.contents == old(out.contents)
  {
    code, after := Call(k, m, Exit(exitCode), (v: Inner) => (), out);
  }

  /** The panic handler: `exit(-42, Some(slot))` on a fresh uninitialised
      slot, whose answer and slot are then ignored, and `loop {}`. The loop
      has no exit; the model observes the thread after `spins` turns, none
      of which traps. */
  method PanicHandler(k: Kernel, m: Machine, spins: nat) returns (after: Machine)
    ensures after.traps == m.traps + [Exit(-42)]
  {
    var slot := new Slot<()>.Uninit();
    var ignored;
    ignored, after := SysExit(k, m, -42, slot);
    var turns := 0;
    while turns < spins
      invariant turns <= spins
    {
      turns := turns + 1;
    }
  }
}
