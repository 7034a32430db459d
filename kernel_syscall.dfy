/** The register-convention kernel side: opcode decoding and `SyscallOp`
    construction (`kernel/src/syscall/mod.rs`) and the `Ping`, `PutChar`
    and `GetKbdCode` branches of `syscall_dispatch`
    (`kernel/src/syscall/dispatch.rs`). */
module KernelSyscall {
  import opened Base

  /** The `SYS_*` numbers. They come from a shared header that is not part
      of this model, so they are a parameter; the kernel's enum gives each
      variant one of them as discriminant, which forces them apart. */
  datatype SysNumbers = SysNumbers(ping: u32, putchar: u32, getchar: u32, sleepMs: u32, exit: u32)
  {
    predicate Distinct()
    {
      ping != putchar && ping != getchar && ping != sleepMs && ping != exit
      && putchar != getchar && putchar != sleepMs && putchar != exit
      && getchar != sleepMs && getchar != exit
      && sleepMs != exit
    }
  }

  datatype OpCode = Ping | PutChar | GetKbdCode | SleepMs | Exit

  /** The `#[repr(u32)]` discriminant of each variant. */
  function Discriminant(nums: SysNumbers, op: OpCode): u32
  {
    match op
    case Ping => nums.ping
    case PutChar => nums.putchar
    case GetKbdCode => nums.getchar
    case SleepMs => nums.sleepMs
    case Exit => nums.exit
  }

  /** `SyscallOpCode::try_from(u32)`; `Err(())` is `None`. */
  function TryFromU32(nums: SysNumbers, value: u32): (r: Option<OpCode>)
    ensures r.Some? <==> value in {nums.ping, nums.putchar, nums.getchar, nums.sleepMs, nums.exit}
    ensures r.Some? ==> Discriminant(nums, r.value) == value
  {
    if value == nums.ping then Some(Ping)
    else if value == nums.putchar then Some(PutChar)
    else if value == nums.getchar then Some(GetKbdCode)
    else if value == nums.sleepMs then Some(SleepMs)
    else if value == nums.exit then Some(Exit)
    else None
  }

  /** Decoding a variant's own discriminant gives the variant back. */
  lemma TryFromDiscriminant(nums: SysNumbers, op: OpCode)
    requires nums.Distinct()
    ensures TryFromU32(nums, Discriminant(nums, op)) == Some(op)
  {
  }

  type Args = s: seq<u64> | |s| == 4 witness [0, 0, 0, 0]

  datatype SyscallOp = SyscallOp(opcode: OpCode, args: Args)

  /** `SyscallOp::new`. */
  function New(nums: SysNumbers, opcode: u32, args: Args): (r: Option<SyscallOp>)
    ensures r.None? <==> TryFromU32(nums, opcode).None?
    ensures r.Some? ==> r.value.args == args && Discriminant(nums, r.value.opcode) == opcode
  {
    match TryFromU32(nums, opcode)
    case None => None
    case Some(op) => Some(SyscallOp(op, args))
  }

  datatype Status = Ok | Error | InvalidOp

  /** `impl From<SyscallStatus> for u64`: the `#[repr(u64)]` discriminant. */
  function StatusValue(s: Status): u64
  {
    match s
    case Ok => 0
    case Error => 0x8000_0000_0000_0000
    case InvalidOp => 0xFFFF_FFFF_FFFF_FFFF
  }

  /** The three statuses are told apart by their `u64` values: only `Ok`
      is zero, `Error` is the top bit alone and `InvalidOp` is all ones. */
  lemma StatusValueInjective(s: Status, t: Status)
    ensures StatusValue(s) == StatusValue(t) <==> s == t
    ensures StatusValue(s) == 0 <==> s == Status.Ok
    ensures StatusValue(s) == U64_MAX <==> s == InvalidOp
  {
  }

  /** What a dispatcher branch does: it either returns a status together
      with what it printed on the console, or hands the calling process to
      the process executor (`SleepMs`, `Exit`), which this model leaves out. */
  datatype Outcome = Finished(status: Status, console: seq<char>) | Handoff

  /** The bytes `PutChar` agrees to print. */
  predicate Printable(c: int)
  {
    (0x20 <= c <= 0x7E) || c == 0x0A
  }

  /** `syscall_dispatch` of `kernel/src/syscall/dispatch.rs`. */
  function Dispatch(op: SyscallOp): (r: Outcome)
    ensures r.Handoff? <==> op.opcode in {SleepMs, Exit}
    ensures op.opcode == Ping ==> r == Finished(Status.Ok, "Ping!\n")
    ensures op.opcode == GetKbdCode ==> r == Finished(Error, [])
    ensures op.opcode == PutChar ==>
      r.Finished? && (r.status == Status.Ok <==> op.args[0] < 0x100 && Printable(op.args[0]))
      && r.status in {Status.Ok, Error}
      && r.console == (if r.status == Status.Ok then [op.args[0] as char] else [])
  {
    match op.opcode
    case Ping => Finished(Status.Ok, "Ping!\n")
    case PutChar =>
      var c := op.args[0];
      if !(0 <= c < 0x100) then Finished(Error, [])
      else if Printable(c) then Finished(Status.Ok, [c as char])
      else Finished(Error, [])
    case GetKbdCode => Finished(Error, [])
    case SleepMs => Handoff
    case Exit => Handoff
  }

  /** Only the first argument is ever consulted. */
  lemma DispatchReadsOnlyFirstArg(op: SyscallOp, other: Args)
    requires other[0] == op.args[0]
    ensures Dispatch(op) == Dispatch(op.(args := other))
  {
  }
}
