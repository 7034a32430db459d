/** The user side of the two register-based system-call conventions:
    `libc/syscall.c` (op in rax, arguments in rdi, rsi, rdx, r8, result in
    rax) and `api/syscall.c` (op word in r14, target in r15, result in r14).
    The `syscall` instruction itself is one abstract step: a kernel is any
    function from the register file at the trap to the register file after
    `sysretq`, and every trap is recorded in the machine's trace. */
module RegisterAbi {
  import opened Base

  /** The general-purpose registers the trampolines bind or read. */
  datatype Regs = Regs(rax: u64, rdi: u64, rsi: u64, rdx: u64, r8: u64, r14: u64, r15: u64)

  /** What one `syscall` does to the registers, seen from user space. */
  type Kernel = Regs -> Regs

  /** A user thread: its current registers and the register file of every
      trap it has issued so far, oldest first. */
  datatype Machine = Machine(regs: Regs, traps: seq<Regs>)

  /** A value returned to C code together with the machine after the call. */
  datatype Ret = Ret(value: u64, after: Machine)

  /** Executes `syscall` with the current registers. */
  function Trap(k: Kernel, m: Machine): Machine
  {
    Machine(k(m.regs), m.traps + [m.regs])
  }

  /** `after` is `before` plus exactly one trap, issued with register file
      `frame`, after which the registers are what the kernel made of it. */
  predicate OneTrap(k: Kernel, before: Machine, frame: Regs, after: Machine)
  {
    after.traps == before.traps + [frame] && after.regs == k(frame)
  }

  /** `__syscall4`: binds op and the four arguments, traps once and
      returns the post-trap rax. */
  function Syscall4(k: Kernel, m: Machine, op: u64, a0: u64, a1: u64, a2: u64, a3: u64): (r: Ret)
    ensures |r.after.traps| == |m.traps| + 1 && r.after.traps[..|m.traps|] == m.traps
    ensures var f := r.after.traps[|m.traps|];
      f.rax == op && f.rdi == a0 && f.rsi == a1 && f.rdx == a2 && f.r8 == a3
      && f.r14 == m.regs.r14 && f.r15 == m.regs.r15
      && r.after.regs == k(f) && r.value == k(f).rax
  {
    var frame := m.regs.(rax := op, rdi := a0, rsi := a1, rdx := a2, r8 := a3);
    var after := Trap(k, m.(regs := frame));
    Ret(after.regs.rax, after)
  }

  /** The register file `__syscall4` traps with. */
  function Frame4(m: Machine, op: u64, a0: u64, a1: u64, a2: u64, a3: u64): Regs
  {
    m.regs.(rax := op, rdi := a0, rsi := a1, rdx := a2, r8 := a3)
  }

  /** `__syscall0`: no arguments; all four argument registers are zero. */
  function Syscall0(k: Kernel, m: Machine, op: u64): (r: Ret)
    ensures OneTrap(k, m, Frame4(m, op, 0, 0, 0, 0), r.after)
    ensures r.value == k(Frame4(m, op, 0, 0, 0, 0)).rax
  {
    Syscall4(k, m, op, 0, 0, 0, 0)
  }

  /** `__syscall1`: one argument; the three trailing registers are zero. */
  function Syscall1(k: Kernel, m: Machine, op: u64, a0: u64): (r: Ret)
    ensures OneTrap(k, m, Frame4(m, op, a0, 0, 0, 0), r.after)
    ensures r.value == k(Frame4(m, op, a0, 0, 0, 0)).rax
  {
    Syscall4(k, m, op, a0, 0, 0, 0)
  }

  /** `__syscall2`. */
  function Syscall2(k: Kernel, m: Machine, op: u64, a0: u64, a1: u64): (r: Ret)
    ensures OneTrap(k, m, Frame4(m, op, a0, a1, 0, 0), r.after)
    ensures r.value == k(Frame4(m, op, a0, a1, 0, 0)).rax
  {
    Syscall4(k, m, op, a0, a1, 0, 0)
  }

  /** `__syscall3`. */
  function Syscall3(k: Kernel, m: Machine, op: u64, a0: u64, a1: u64, a2: u64): (r: Ret)
    ensures OneTrap(k, m, Frame4(m, op, a0, a1, a2, 0), r.after)
    ensures r.value == k(Frame4(m, op, a0, a1, a2, 0)).rax
  {
    Syscall4(k, m, op, a0, a1, a2, 0)
  }

  /** The result of every forwarder depends only on the kernel's answer in
      rax: two kernels that agree on rax for the padded frame give the same
      result, whatever else they do to the registers. */
  lemma ResultIsPostTrapRax(k1: Kernel, k2: Kernel, m: Machine, op: u64, a0: u64, a1: u64, a2: u64, a3: u64)
    requires k1(Frame4(m, op, a0, a1, a2, a3)).rax == k2(Frame4(m, op, a0, a1, a2, a3)).rax
    ensures Syscall4(k1, m, op, a0, a1, a2, a3).value == Syscall4(k2, m, op, a0, a1, a2, a3).value
    ensures Syscall4(k1, m, op, a0, a1, a2, a3).after.traps == Syscall4(k2, m, op, a0, a1, a2, a3).after.traps
  {
  }

  /** `syscall(a, target)` of `api/syscall.c`: op word in r14, target in
      r15, one trap, result is the post-trap r14. */
  function TwoWordSyscall(k: Kernel, m: Machine, a: u64, target: u64): (r: Ret)
    ensures OneTrap(k, m, m.regs.(r14 := a, r15 := target), r.after)
    ensures r.value == k(m.regs.(r14 := a, r15 := target)).r14
  {
    var after := Trap(k, m.(regs := m.regs.(r14 := a, r15 := target)));
    Ret(after.regs.r14, after)
  }

  /** The post-trap r15 is never returned: two kernels that differ only in
      what they leave in r15 (or in any register but r14) give the caller
      the same value and the same trace. */
  lemma R15Unobservable(k1: Kernel, k2: Kernel, m: Machine, a: u64, target: u64)
    requires k1(m.regs.(r14 := a, r15 := target)).r14 == k2(m.regs.(r14 := a, r15 := target)).r14
    ensures TwoWordSyscall(k1, m, a, target).value == TwoWordSyscall(k2, m, a, target).value
    ensures TwoWordSyscall(k1, m, a, target).after.traps == TwoWordSyscall(k2, m, a, target).after.traps
  {
  }

  /** The kernel half of the two-word convention: the handler reads the op
      word from r14 and the pointer from r15, dispatches, and writes the
      status back into r14. */
  function HandlerKernel(dispatch: (u64, u64) -> u64): (k: Kernel)
    ensures forall regs :: k(regs).r14 == dispatch(regs.r14, regs.r15)
  {
    (regs: Regs) => regs.(r14 := dispatch(regs.r14, regs.r15))
  }

  /** Encoding by the user trampoline and decoding by the kernel handler
      agree: the dispatcher sees exactly the op word and target the caller
      passed, and the caller gets exactly the dispatcher's status. */
  lemma TwoWordRoundTrip(dispatch: (u64, u64) -> u64, m: Machine, a: u64, target: u64)
    ensures TwoWordSyscall(HandlerKernel(dispatch), m, a, target).value == dispatch(a, target)
  {
  }
}
