/** The typed C wrappers over the register convention: `putchar`
    (`libc/sys/putchar.c`), `sleep_ms` (`libc/sys/sleep.c`), `ping`
    (`libc/sys/ping.c`) and `abort` (`libc/stdlib/abort.c`). */
module LibcSys {
  import opened Base
  import opened RegisterAbi
  import KernelSyscall

  type SysNumbers = KernelSyscall.SysNumbers

  /** `int putchar(unsigned char c)`: one `__syscall1(SYS_PUTCHAR, c)`,
      then 1 for any non-zero kernel answer and 0 for zero. */
  function Putchar(k: Kernel, m: Machine, nums: SysNumbers, c: u8): (r: Ret)
    ensures OneTrap(k, m, Frame4(m, nums.putchar, c, 0, 0, 0), r.after)
    ensures r.value in {0, 1}
    ensures r.value == 0 <==> k(Frame4(m, nums.putchar, c, 0, 0, 0)).rax == 0
  {
    var err := Syscall1(k, m, nums.putchar, c);
    Ret(if err.value != 0 then 1 else 0, err.after)
  }

  /** No byte is filtered in user space: every byte, 0x00 and 0xFF
      included, reaches the kernel unchanged in rdi. */
  lemma PutcharTrapsForEveryByte(k: Kernel, m: Machine, nums: SysNumbers, c: u8)
    ensures var after := Putchar(k, m, nums, c).after;
      |after.traps| == |m.traps| + 1 && after.traps[|m.traps|].rdi == c
      && after.traps[|m.traps|].rax == nums.putchar
  {
  }

  /** A kernel that answers register-convention calls with
      `syscall_dispatch` of `kernel/src/syscall/dispatch.rs`, taking the
      opcode from the low 32 bits of rax and the four arguments from rdi,
      rsi, rdx and r8, and returning the status in rax. */
  ghost predicate AnswersViaDispatch(k: Kernel, nums: SysNumbers)
  {
    forall regs: Regs ::
      var op := KernelSyscall.New(nums, regs.rax % 0x1_0000_0000, [regs.rdi, regs.rsi, regs.rdx, regs.r8]);
      op.Some? && KernelSyscall.Dispatch(op.value).Finished? ==>
        k(regs).rax == KernelSyscall.StatusValue(KernelSyscall.Dispatch(op.value).status)
  }

  /** Against the kernel dispatcher, `putchar` returns 0 exactly for the
      printable ASCII bytes and newline, and 1 for every other byte. */
  lemma PutcharViaDispatch(k: Kernel, m: Machine, nums: SysNumbers, c: u8)
    requires nums.Distinct() && AnswersViaDispatch(k, nums)
    ensures Putchar(k, m, nums, c).value == 0 <==> KernelSyscall.Printable(c)
  {
    var frame := Frame4(m, nums.putchar, c, 0, 0, 0);
    var op := KernelSyscall.New(nums, frame.rax % 0x1_0000_0000, [frame.rdi, frame.rsi, frame.rdx, frame.r8]);
    assert op == Some(KernelSyscall.SyscallOp(KernelSyscall.PutChar, [c, 0, 0, 0]));
    KernelSyscall.StatusValueInjective(KernelSyscall.Dispatch(op.value).status, KernelSyscall.Status.Ok);
  }

  /** `void sleep_ms(uint32_t ms)`: one trap with the duration in rdi; the
      result is discarded and `ms == 0` is not special-cased. */
  function SleepMs(k: Kernel, m: Machine, nums: SysNumbers, ms: u32): (after: Machine)
    ensures OneTrap(k, m, Frame4(m, nums.sleepMs, ms, 0, 0, 0), after)
  {
    Syscall1(k, m, nums.sleepMs, ms).after
  }

  /** `void ping()`: one trap with all four argument registers zero. */
  function Ping(k: Kernel, m: Machine, nums: SysNumbers): (after: Machine)
    ensures OneTrap(k, m, Frame4(m, nums.ping, 0, 0, 0, 0), after)
  {
    Syscall0(k, m, nums.ping).after
  }

  /** The trace `sleep_ms` and `ping` leave does not depend on the kernel's
      answer: the result register is dropped. */
  lemma ResultsDiscarded(k1: Kernel, k2: Kernel, m: Machine, nums: SysNumbers, ms: u32)
    ensures SleepMs(k1, m, nums, ms).traps == SleepMs(k2, m, nums, ms).traps
    ensures Ping(k1, m, nums).traps == Ping(k2, m, nums).traps
  {
  }

  /** `abort()`: one `__syscall1(SYS_EXIT, 0)`, whose answer is ignored,
      then `while (1) {}`. The loop has no exit; the model observes the
      thread after `spins` turns of it, and no turn issues a trap. */
  method Abort(k: Kernel, m: Machine, nums: SysNumbers, spins: nat) returns (after: Machine)
    ensures after.traps == m.traps + [Frame4(m, nums.exit, 0, 0, 0, 0)]
    ensures after.regs == k(Frame4(m, nums.exit, 0, 0, 0, 0))
  {
    after := Syscall1(k, m, nums.exit, 0).after;
    var turns := 0;
    while turns < spins
      invariant turns <= spins
    {
      turns := turns + 1;
    }
  }
}
