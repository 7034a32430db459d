/** The kernel's dispatcher for the two-word convention
    (`kernel/src/syscall/syscalls.rs`): its own copy of the opcode table,
    the op-word decoder and the `Ping`, `GetKbdCode` and invalid-op
    branches of `syscall_dispatch`. */
module KernelSyscalls {
  import opened Base
  import LibKernel
  import RegisterAbi

  /** The kernel's copy of `SyscallOpCode`. */
  datatype OpCode = Ping | GetKbdCode | Exit

  function Discriminant(op: OpCode): u8
  {
    match op
    case Ping => 0
    case GetKbdCode => 1
    case Exit => 127
  }

  /** `SyscallOpCode::try_from(u8)` of the kernel's own copy of the opcode
      table; the source keeps one copy here and one in the user library,
      and `TablesAgree` states that the two decode alike. */
  function OpCodeTryFrom(b: u8): (r: Option<OpCode>)
    ensures r.Some? <==> b in {0, 1, 127}
    ensures r.Some? ==> Discriminant(r.value) == b
  {
    match b
    case 0 => Some(Ping)
    case 1 => Some(GetKbdCode)
    case 127 => Some(Exit)
    case _ => None
  }

  /** The same-named variants of the user-side enum. */
  function ToUser(op: OpCode): LibKernel.OpCode
  {
    match op
    case Ping => LibKernel.Ping
    case GetKbdCode => LibKernel.GetKbdCode
    case Exit => LibKernel.Exit
  }

  /** The kernel's table and the user library's table are the same: the
      same bytes decode, to same-named variants with the same
      discriminants. */
  lemma {:induction false} TablesAgree(b: u8)
    ensures OpCodeTryFrom(b).Some? <==> LibKernel.OpCodeTryFrom(b).Some?
    ensures OpCodeTryFrom(b).Some? ==> LibKernel.OpCodeTryFrom(b).value == ToUser(OpCodeTryFrom(b).value)
    ensures forall op: OpCode :: LibKernel.Discriminant(ToUser(op)) == Discriminant(op)
  {
  }

  datatype SyscallOp = SyscallOp(opcode: OpCode, argU8: u8, argU16: u16, argU32: u32)

  /** `SyscallOp::try_from(u64)` of the kernel copy, through the same
      packed little-endian record. */
  function OpTryFrom(v: u64): (r: Option<SyscallOp>)
    ensures r.Some? <==> v % 0x100 in {0, 1, 127}
    ensures r.Some? ==> Discriminant(r.value.opcode) == v % 0x100
  {
    var raw := LibKernel.Unpack(v);
    match OpCodeTryFrom(raw.opcode)
    case None => None
    case Some(opcode) => Some(SyscallOp(opcode, raw.argU8, raw.argU16, raw.argU32))
  }

  /** The kernel decodes every word a user program encodes into the op
      that program meant. */
  lemma KernelDecodesUserEncoding(op: LibKernel.SyscallOp)
    ensures OpTryFrom(LibKernel.Encode(op)).Some?
    ensures var k := OpTryFrom(LibKernel.Encode(op)).value;
      ToUser(k.opcode) == op.opcode && k.argU8 == op.argU8 && k.argU16 == op.argU16 && k.argU32 == op.argU32
  {
    LibKernel.UnpackPack(LibKernel.RawOp(LibKernel.Discriminant(op.opcode), op.argU8, op.argU16, op.argU32));
  }

  const SYSCALL_OK: u64 := 0
  const SYSCALL_ERR: u64 := 0x8000_0000_0000_0000
  const INVALID_OP: u64 := 0xFFFF_FFFF_FFFF_FFFF

  /** A returned status with the console output of the branch, or the
      `Exit` branch, which switches to the next process and is left out. */
  datatype Outcome = Finished(status: u64, console: seq<char>) | Handoff

  /** `syscall_dispatch(op, ptr)`. */
  function Dispatch(op: u64, ptr: u64): (r: Outcome)
    ensures OpTryFrom(op).None? ==> r == Finished(INVALID_OP, [])
    ensures r.Handoff? <==> op % 0x100 == 127
    ensures op % 0x100 == 0 ==> r == Finished(SYSCALL_OK, "Ping!\n")
    ensures op % 0x100 == 1 ==> r.Finished? && r.status == SYSCALL_ERR
  {
    match OpTryFrom(op)
    case None => Finished(INVALID_OP, [])
    case Some(decoded) =>
      match decoded.opcode
      case Ping => Finished(SYSCALL_OK, "Ping!\n")
      case GetKbdCode => Finished(SYSCALL_ERR, "TODO: Keyboard syscall\n")
      case Exit => Handoff
  }

  /** The target pointer is never read in the modelled branches. */
  lemma DispatchIgnoresPtr(op: u64, p1: u64, p2: u64)
    ensures Dispatch(op, p1) == Dispatch(op, p2)
  {
  }

  /** A kernel whose handler answers with `syscall_dispatch` wherever that
      returns. */
  ghost predicate AnswersViaDispatch(d: (u64, u64) -> u64)
  {
    forall op: u64, ptr: u64 :: Dispatch(op, ptr).Finished? ==> d(op, ptr) == Dispatch(op, ptr).status
  }

  /** End to end through the r14/r15 trampoline and the kernel handler: a
      ping returns `SYSCALL_OK`, a keyboard request `SYSCALL_ERR`, and a
      word with an unknown opcode byte `INVALID_OP`. */
  lemma TwoWordCallStatus(d: (u64, u64) -> u64, m: RegisterAbi.Machine, word: u64, target: u64)
    requires AnswersViaDispatch(d)
    requires word % 0x100 != 127
    ensures var v := RegisterAbi.TwoWordSyscall(RegisterAbi.HandlerKernel(d), m, word, target).value;
      (word % 0x100 == 0 ==> v == SYSCALL_OK)
      && (word % 0x100 == 1 ==> v == SYSCALL_ERR)
      && (word % 0x100 !in {0, 1, 127} ==> v == INVALID_OP)
  {
    RegisterAbi.TwoWordRoundTrip(d, m, word, target);
    assert Dispatch(word, target).Finished?;
  }
}
