/** The C init program of `initrd/init.c`: `print`, `itoa` and the
    `_start` loop, over the `libc` wrappers. */
module InitC {
  import opened Base
  import opened RegisterAbi
  import KernelSyscall
  import LibcSys

  type SysNumbers = KernelSyscall.SysNumbers

  /** A request as the trace shows it: the operation number in rax and the
      one argument in rdi (the other argument registers are zero). */
  datatype Call = Call(op: u64, arg: u64)

  /** The frames `frames` issue exactly the requests `calls`, in order. */
  predicate Issued(frames: seq<Regs>, calls: seq<Call>)
  {
    |frames| == |calls|
    && forall i :: 0 <= i < |frames| ==>
      frames[i].rax == calls[i].op && frames[i].rdi == calls[i].arg
      && frames[i].rsi == 0 && frames[i].rdx == 0 && frames[i].r8 == 0
  }

  /** Going from `before` to `after` appended traps issuing `calls`, and
      nothing else. */
  predicate Extends(before: Machine, after: Machine, calls: seq<Call>)
  {
    |after.traps| == |before.traps| + |calls|
    && after.traps[..|before.traps|] == before.traps
    && Issued(after.traps[|before.traps|..], calls)
  }

  /** Extensions compose. */
  lemma ExtendsTrans(m1: Machine, m2: Machine, m3: Machine, c1: seq<Call>, c2: seq<Call>)
    requires Extends(m1, m2, c1) && Extends(m2, m3, c2)
    ensures Extends(m1, m3, c1 + c2)
  {
    var n1, n2 := |m1.traps|, |m2.traps|;
    assert m3.traps[..n1] == m3.traps[..n2][..n1];
    forall i | 0 <= i < |c1| + |c2|
      ensures m3.traps[n1..][i] == m3.traps[n1 + i]
    {
    }
    forall i | 0 <= i < |c1|
      ensures m3.traps[n1 + i] == m2.traps[n1..][i]
    {
      assert m3.traps[n1 + i] == m3.traps[..n2][n1 + i];
    }
    forall j | 0 <= j < |c2|
      ensures m3.traps[n1 + |c1| + j] == m3.traps[n2..][j]
    {
    }
  }

  /** A single register-convention call with one argument issues that one
      request. */
  lemma OneTrapExtends(k: Kernel, m: Machine, after: Machine, op: u64, a0: u64)
    requires OneTrap(k, m, Frame4(m, op, a0, 0, 0, 0), after)
    ensures Extends(m, after, [Call(op, a0)])
  {
    assert after.traps[|m.traps|..] == [Frame4(m, op, a0, 0, 0, 0)];
  }

  /** The `putchar` requests for the bytes of `s`, in order. */
  function PutcharCalls(nums: SysNumbers, s: seq<u8>): (r: seq<Call>)
    ensures |r| == |s| && forall i :: 0 <= i < |s| ==> r[i] == Call(nums.putchar, s[i])
  {
    seq(|s|, i requires 0 <= i < |s| => Call(nums.putchar, s[i]))
  }

  /** `void print(const char *s, size_t len)`: one `putchar` per byte, in
      order, results ignored. The counter is an `int`, so `len` stays below
      2^31. */
  method Print(k: Kernel, m: Machine, nums: SysNumbers, s: seq<u8>) returns (after: Machine)
    requires |s| < 0x8000_0000
    ensures Extends(m, after, PutcharCalls(nums, s))
  {
    after := m;
    var i := 0;
    while i < |s|
      invariant i <= |s|
      invariant Extends(m, after, PutcharCalls(nums, s[..i]))
    {
      var next := LibcSys.Putchar(k, after, nums, s[i]).after;
      OneTrapExtends(k, after, next, nums.putchar, s[i]);
      ExtendsTrans(m, after, next, PutcharCalls(nums, s[..i]), [Call(nums.putchar, s[i])]);
      assert PutcharCalls(nums, s[..i + 1]) == PutcharCalls(nums, s[..i]) + [Call(nums.putchar, s[i])];
      after := next;
      i := i + 1;
    }
    assert s[..i] == s;
  }

  /** C's `n % 10` on an `int`: truncating, so negative for negative `n`. */
  function CRem10(n: int): (r: int)
    ensures -9 <= r <= 9
    ensures n >= 0 ==> r == n % 10
    ensures n < 0 ==> r <= 0 && (n - r) % 10 == 0
  {
    if n >= 0 then n % 10 else -((-n) % 10)
  }

  /** C's `n / 10` on an `int`: rounds toward zero. */
  function CQuot10(n: int): (r: int)
    ensures n >= 0 ==> r == n / 10
    ensures n == 10 * r + CRem10(n)
  {
    if n >= 0 then n / 10 else -((-n) / 10)
  }

  /** The bytes the first loop of `itoa` writes into `count` slots, starting
      from value `n`; `first` is true for slot 0, the only slot that
      writes a digit even when `n` is already 0. */
  function Fill(n: int, first: bool, count: nat): (r: seq<u8>)
    ensures |r| == count
    decreases count
  {
    if count == 0 then []
    else if n == 0 && !first then [0] + Fill(0, false, count - 1)
    else [CRem10(n) + 0x30] + Fill(CQuot10(n), false, count - 1)
  }

  /** How many of those slots receive a digit (`out_len`). */
  function Produced(n: int, first: bool, count: nat): (r: nat)
    ensures r <= count
    decreases count
  {
    if count == 0 then 0
    else if n == 0 && !first then Produced(0, false, count - 1)
    else 1 + Produced(CQuot10(n), false, count - 1)
  }

  /** `itoa(n, buf, buflen)`'s return value. */
  function ItoaLen(n: int, buflen: nat): nat
  {
    Produced(n, true, buflen)
  }

  /** The `buflen` bytes `itoa` leaves in `buf`: the digit slots reversed,
      then the NUL slots. */
  function ItoaBytes(n: int, buflen: nat): (r: seq<u8>)
    ensures |r| == buflen
  {
    var f := Fill(n, true, buflen);
    var len := ItoaLen(n, buflen);
    Reverse(f[..len]) + f[len..]
  }

  /** `size_t itoa(int n, char *buf, size_t buflen)`: writes the digits
      least significant first into `buf[0..buflen)`, filling unused slots
      with NUL, then reverses the digit prefix in place. */
  method Itoa(n: int, buf: array<u8>, buflen: nat) returns (outLen: nat)
    requires -0x8000_0000 <= n < 0x8000_0000
    requires buflen <= buf.Length && buflen < 0x8000_0000
    modifies buf
    ensures outLen == ItoaLen(n, buflen)
    ensures buf[..buflen] == ItoaBytes(n, buflen)
    ensures forall j :: buflen <= j < buf.Length ==> buf[j] == old(buf[j])
  {
    outLen := FillSlots(n, buf, buflen);
    ghost var f := buf[..buflen];
    ReversePrefix(buf, outLen);
    assert buf[..outLen] == Reverse(f[..outLen]);
    assert buf[..buflen] == buf[..outLen] + buf[outLen..buflen];
  }

  /** The first loop of `itoa`. */
  method FillSlots(n0: int, buf: array<u8>, buflen: nat) returns (outLen: nat)
    requires buflen <= buf.Length
    modifies buf
    ensures outLen == Produced(n0, true, buflen)
    ensures buf[..buflen] == Fill(n0, true, buflen)
    ensures forall j :: buflen <= j < buf.Length ==> buf[j] == old(buf[j])
  {
    var n := n0;
    outLen := 0;
    var i := 0;
    ghost var f := Fill(n0, true, buflen);
    while i < buflen
      invariant 0 <= i <= buflen
      invariant buf[..i] == f[..i]
      invariant f[i..] == Fill(n, i == 0, buflen - i)
      invariant Produced(n0, true, buflen) == outLen + Produced(n, i == 0, buflen - i)
      invariant forall j :: buflen <= j < buf.Length ==> buf[j] == old(buf[j])
    {
      ghost var before := n;
      var d;
      if n == 0 && i != 0 {
        d := 0;
      } else {
        d := CRem10(n) + 0x30;
        n := CQuot10(n);
        outLen := outLen + 1;
      }
      FillStep(before, i == 0, buflen - i);
      SlotSplit(f, i, d, Fill(n, false, buflen - i - 1));
      buf[i] := d;
      i := i + 1;
    }
    assert f[..i] == f;
  }

  /** A suffix `f[i..]` that is `[d] + rest` starts with `d` at `i` and
      goes on with `rest`. */
  lemma SlotSplit(f: seq<u8>, i: nat, d: u8, rest: seq<u8>)
    requires i < |f| && f[i..] == [d] + rest
    ensures f[i] == d && f[i + 1..] == rest
  {
    assert f[i + 1..] == f[i..][1..];
  }

  /** One slot of the first loop of `itoa`. */
  lemma FillStep(n: int, first: bool, count: nat)
    requires count > 0
    ensures n == 0 && !first ==>
      Fill(n, first, count) == [0] + Fill(0, false, count - 1) && Produced(n, first, count) == Produced(0, false, count - 1)
    ensures !(n == 0 && !first) ==>
      Fill(n, first, count) == [CRem10(n) + 0x30] + Fill(CQuot10(n), false, count - 1)
      && Produced(n, first, count) == 1 + Produced(CQuot10(n), false, count - 1)
  {
  }

  /** The second loop of `itoa`: swaps `buf[i]` and `buf[j]` from both
      ends of the digit prefix inwards. */
  method ReversePrefix(buf: array<u8>, len: nat)
    requires len <= buf.Length
    modifies buf
    ensures buf[..len] == Reverse(old(buf[..len]))
    ensures forall j :: len <= j < buf.Length ==> buf[j] == old(buf[j])
  {
    ghost var f := buf[..len];
    var lo, hi := 0, len - 1;
    while lo <= hi
      invariant 0 <= lo && hi == len - 1 - lo && 2 * lo <= len + 1
      invariant forall p :: (0 <= p < lo || hi < p < len) ==> buf[p] == f[len - 1 - p]
      invariant forall p :: lo <= p <= hi ==> buf[p] == f[p]
      invariant forall j :: len <= j < buf.Length ==> buf[j] == old(buf[j])
    {
      buf[lo], buf[hi] := buf[hi], buf[lo];
      lo, hi := lo + 1, hi - 1;
    }
  }

  /** Slots after the value has run out hold NUL and count no digit. */
  lemma {:induction false} FillZero(count: nat)
    ensures Fill(0, false, count) == Repeat(0, count)
    ensures Produced(0, false, count) == 0
  {
    if count > 0 {
      FillZero(count - 1);
      assert Repeat(0, count) == [0] + Repeat(0, count - 1);
    }
  }

  /** For `n >= 0` the first loop writes the decimal digits of `n` least
      significant first, as many as fit, then NULs. */
  lemma FillDecimal(n: nat, count: nat)
    requires count >= 1
    ensures Produced(n, true, count) == Shown(n, count)
    ensures Fill(n, true, count) == Reverse(Decimal(n))[..Shown(n, count)] + Repeat(0, count - Shown(n, count))
  {
    ProducedDecimal(n, count);
    FillDigits(n, count);
  }

  /** How many of the decimal digits of `n` fit in `count` slots. */
  function Shown(n: nat, count: nat): (k: nat)
    ensures k <= count && k <= |Decimal(n)|
    ensures k == count || k == |Decimal(n)|
  {
    if |Decimal(n)| < count then |Decimal(n)| else count
  }

  /** The digit count half of `FillDecimal`. */
  lemma {:induction false} ProducedDecimal(n: nat, count: nat)
    requires count >= 1
    ensures Produced(n, true, count) == Shown(n, count)
    decreases count
  {
    FillStep(n, true, count);
    if n < 10 {
      assert CQuot10(n) == 0;
      FillZero(count - 1);
    } else {
      assert CQuot10(n) == n / 10;
      FillNonzero(n / 10, count - 1);
      if count > 1 {
        ProducedDecimal(n / 10, count - 1);
      }
    }
  }

  /** The byte half of `FillDecimal`. */
  lemma {:induction false} FillDigits(n: nat, count: nat)
    requires count >= 1
    ensures Fill(n, true, count) == Reverse(Decimal(n))[..Shown(n, count)] + Repeat(0, count - Shown(n, count))
    decreases count
  {
    if n < 10 {
      FillOneDigit(n, count);
    } else if count == 1 {
      FillLastSlot(n);
    } else {
      FillDigits(n / 10, count - 1);
      FillNextDigit(n, count);
    }
  }

  /** A one-digit value fills its digit, then NULs. */
  lemma FillOneDigit(n: nat, count: nat)
    requires n < 10 && count >= 1
    ensures Fill(n, true, count) == Reverse(Decimal(n))[..Shown(n, count)] + Repeat(0, count - Shown(n, count))
  {
    FillStep(n, true, count);
    assert CRem10(n) + 0x30 == 0x30 + n && CQuot10(n) == 0;
    FillZero(count - 1);
    assert Shown(n, count) == 1 && Reverse(Decimal(n))[..1] == [0x30 + n];
  }

  /** A single slot receives the least significant digit. */
  lemma FillLastSlot(n: nat)
    requires n >= 10
    ensures Fill(n, true, 1) == Reverse(Decimal(n))[..Shown(n, 1)] + Repeat(0, 1 - Shown(n, 1))
  {
    var digit: u8 := 0x30 + n % 10;
    FillStep(n, true, 1);
    assert CRem10(n) + 0x30 == digit;
    assert Decimal(n) == Decimal(n / 10) + [digit];
    assert Shown(n, 1) == 1 && Reverse(Decimal(n))[..1] == [digit];
  }

  /** The least significant digit, then what the rest of the value fills
      into the remaining slots. */
  lemma FillNextDigit(n: nat, count: nat)
    requires n >= 10 && count > 1
    requires Fill(n / 10, true, count - 1)
      == Reverse(Decimal(n / 10))[..Shown(n / 10, count - 1)] + Repeat(0, count - 1 - Shown(n / 10, count - 1))
    ensures Fill(n, true, count) == Reverse(Decimal(n))[..Shown(n, count)] + Repeat(0, count - Shown(n, count))
  {
    var d, d' := Decimal(n), Decimal(n / 10);
    var digit: u8 := 0x30 + n % 10;
    var k, k' := Shown(n, count), Shown(n / 10, count - 1);
    assert Fill(n, true, count) == [digit] + Fill(n / 10, true, count - 1) by {
      FillStep(n, true, count);
      assert CRem10(n) + 0x30 == digit && CQuot10(n) == n / 10;
      FillNonzero(n / 10, count - 1);
    }
    assert k == k' + 1 && Reverse(d)[..k] == [digit] + Reverse(d')[..k'] by {
      assert d == d' + [digit];
      ReverseSnoc(d', digit);
    }
    AppendAssoc([digit], Reverse(d')[..k'], Repeat(0, count - k));
  }

  /** Reversing `s + [x]` puts `x` first. */
  lemma ReverseSnoc(s: seq<u8>, x: u8)
    ensures Reverse(s + [x]) == [x] + Reverse(s)
  {
  }

  /** Past slot 0 a nonzero value fills as it would from slot 0. */
  lemma FillNonzero(n: int, count: nat)
    requires n != 0
    ensures Fill(n, false, count) == Fill(n, true, count)
    ensures Produced(n, false, count) == Produced(n, true, count)
  {
  }

  /** For `0 <= n` and a buffer of at least one byte, `itoa` produces the
      last `buflen` digits of the decimal representation of `n` (all of
      them when they fit), followed by NULs. */
  lemma ItoaDecimal(n: nat, buflen: nat)
    requires buflen >= 1
    ensures ItoaLen(n, buflen) == Shown(n, buflen)
    ensures ItoaBytes(n, buflen) == Decimal(n)[|Decimal(n)| - Shown(n, buflen)..] + Repeat(0, buflen - Shown(n, buflen))
  {
    var d := Decimal(n);
    var k := Shown(n, buflen);
    FillDecimal(n, buflen);
    ItoaFromFill(n, buflen, Reverse(d)[..k]);
    ReverseTake(d, k);
  }

  /** `itoa`'s bytes from what its first loop wrote: the digit slots
      reversed, then the NULs. */
  lemma ItoaFromFill(n: int, buflen: nat, digits: seq<u8>)
    requires |digits| <= buflen && ItoaLen(n, buflen) == |digits|
    requires Fill(n, true, buflen) == digits + Repeat(0, buflen - |digits|)
    ensures ItoaBytes(n, buflen) == Reverse(digits) + Repeat(0, buflen - |digits|)
  {
    var f := Fill(n, true, buflen);
    assert f[..|digits|] == digits && f[|digits|..] == Repeat(0, buflen - |digits|);
  }

  /** The last `k` items of `s` are the first `k` of its reverse, reversed. */
  lemma ReverseTake(s: seq<u8>, k: nat)
    requires k <= |s|
    ensures Reverse(Reverse(s)[..k]) == s[|s| - k..]
  {
    var r := Reverse(Reverse(s)[..k]);
    var tail := s[|s| - k..];
    forall i | 0 <= i < k
      ensures r[i] == tail[i]
    {
      ReverseTakeAt(s, k, i);
    }
  }

  lemma ReverseTakeAt(s: seq<u8>, k: nat, i: nat)
    requires k <= |s| && i < k
    ensures Reverse(Reverse(s)[..k])[i] == s[|s| - k + i]
  {
    var t := Reverse(s)[..k];
    assert Reverse(t)[i] == t[k - 1 - i];
  }

  /** With the 8-byte buffer of `_start`, every count below 10^8 comes out
      as its full decimal representation. */
  lemma ItoaFits(n: nat)
    requires n < 100_000_000
    ensures ItoaBytes(n, 8)[..ItoaLen(n, 8)] == Decimal(n)
  {
    ItoaDecimal(n, 8);
    assert Pow10(8) == 100_000_000;
    DecimalLength(n, 8);
  }

  function Pow10(k: nat): nat
  {
    if k == 0 then 1 else 10 * Pow10(k - 1)
  }

  /** A number below 10^k has at most k decimal digits. */
  lemma {:induction false} DecimalLength(n: nat, k: nat)
    requires 1 <= k && n < Pow10(k)
    ensures |Decimal(n)| <= k
  {
    if n >= 10 {
      assert k >= 2;
      DecimalLength(n / 10, k - 1);
    }
  }

  /** A negative one-digit value comes out as one byte below '0': C's
      truncating remainder, not a minus sign. */
  lemma ItoaNegativeDigit(n: int, buflen: nat)
    requires -9 <= n < 0 && buflen >= 1
    ensures ItoaLen(n, buflen) == 1
    ensures ItoaBytes(n, buflen) == [0x30 + n] + Repeat(0, buflen - 1)
  {
    FillZero(buflen - 1);
  }

  /** `"Hello from userland C!\n"` with its NUL: `sizeof text` is 24. */
  const Banner: seq<u8> := [
    0x48, 0x65, 0x6C, 0x6C, 0x6F, 0x20, 0x66, 0x72, 0x6F, 0x6D, 0x20,
    0x75, 0x73, 0x65, 0x72, 0x6C, 0x61, 0x6E, 0x64, 0x20,
    0x43, 0x21, 0x0A, 0x00]

  /** `" seconds\n"` with its NUL: `sizeof suffix` is 10. */
  const Suffix: seq<u8> := [0x20, 0x73, 0x65, 0x63, 0x6F, 0x6E, 0x64, 0x73, 0x0A, 0x00]

  /** The bytes printed for the count `n`. */
  function Digits(n: int): seq<u8>
  {
    ItoaBytes(n, 8)[..ItoaLen(n, 8)]
  }

  /** The requests of one turn of the `seconds` loop. */
  function RoundCalls(nums: SysNumbers, n: int): seq<Call>
  {
    PutcharCalls(nums, Digits(n)) + PutcharCalls(nums, Suffix) + [Call(nums.sleepMs, 1000)]
  }

  /** The requests of the first `rounds` turns. */
  function LoopCalls(nums: SysNumbers, rounds: nat): seq<Call>
  {
    if rounds == 0 then [] else LoopCalls(nums, rounds - 1) + RoundCalls(nums, rounds - 1)
  }

  /** Everything `_start` has requested after `rounds` turns. */
  function StartCalls(nums: SysNumbers, rounds: nat): seq<Call>
  {
    Repeat(Call(nums.ping, 0), 3) + PutcharCalls(nums, Banner) + LoopCalls(nums, rounds)
  }

  /** One turn: `itoa` into a fresh 8-byte buffer, print the digits, the
      suffix with its NUL, then `sleep_ms(1000)`. */
  method Round(k: Kernel, m: Machine, nums: SysNumbers, seconds: int) returns (after: Machine)
    requires 0 <= seconds < 0x8000_0000
    ensures Extends(m, after, RoundCalls(nums, seconds))
  {
    var numbuf := new u8[8];
    var numlen := Itoa(seconds, numbuf, 8);
    var m1 := Print(k, m, nums, numbuf[..numlen]);
    var m2 := Print(k, m1, nums, Suffix);
    ExtendsTrans(m, m1, m2, PutcharCalls(nums, Digits(seconds)), PutcharCalls(nums, Suffix));
    after := LibcSys.SleepMs(k, m2, nums, 1000);
    OneTrapExtends(k, m2, after, nums.sleepMs, 1000);
    ExtendsTrans(m, m2, after, PutcharCalls(nums, Digits(seconds)) + PutcharCalls(nums, Suffix), [Call(nums.sleepMs, 1000)]);
  }

  /** Three pings. */
  method Pings(k: Kernel, m: Machine, nums: SysNumbers) returns (after: Machine)
    ensures Extends(m, after, Repeat(Call(nums.ping, 0), 3))
  {
    after := m;
    var i := 0;
    while i < 3
      invariant i <= 3
      invariant Extends(m, after, Repeat(Call(nums.ping, 0), i))
    {
      var next := LibcSys.Ping(k, after, nums);
      OneTrapExtends(k, after, next, nums.ping, 0);
      ExtendsTrans(m, after, next, Repeat(Call(nums.ping, 0), i), [Call(nums.ping, 0)]);
      after := next;
      i := i + 1;
    }
  }

  /** `_start` observed after `rounds` turns of its endless loop. The loop
      never ends, so the `abort()` after it is unreachable; the `int`
      counter keeps `rounds` at most 2^31. */
  method Start(k: Kernel, m: Machine, nums: SysNumbers, rounds: nat) returns (after: Machine)
    requires rounds <= 0x8000_0000
    ensures Extends(m, after, StartCalls(nums, rounds))
  {
    var m1 := Pings(k, m, nums);
    var m2 := Print(k, m1, nums, Banner);
    ExtendsTrans(m, m1, m2, Repeat(Call(nums.ping, 0), 3), PutcharCalls(nums, Banner));
    after := m2;
    var seconds := 0;
    while seconds < rounds
      invariant seconds <= rounds
      invariant Extends(m2, after, LoopCalls(nums, seconds))
    {
      var next := Round(k, after, nums, seconds);
      ExtendsTrans(m2, after, next, LoopCalls(nums, seconds), RoundCalls(nums, seconds));
      after := next;
      seconds := seconds + 1;
    }
    ExtendsTrans(m, m2, after, Repeat(Call(nums.ping, 0), 3) + PutcharCalls(nums, Banner), LoopCalls(nums, rounds));
  }

  /** Against the kernel's dispatcher every digit of a count below 10^8 is
      printable, so each of its `putchar` calls is accepted. */
  lemma DigitsPrintable(n: nat)
    requires n < 100_000_000
    ensures forall c :: c in Digits(n) ==> KernelSyscall.Printable(c)
  {
    ItoaFits(n);
    assert Digits(n) == Decimal(n);
  }

  /** Both strings are printed with the NUL that `sizeof` counts: every
      other byte is printable, the NUL is rejected by the dispatcher (and
      `print` ignores the rejection). */
  lemma TerminatorsRejected()
    ensures forall i :: 0 <= i < |Suffix| - 1 ==> KernelSyscall.Printable(Suffix[i])
    ensures forall i :: 0 <= i < |Banner| - 1 ==> KernelSyscall.Printable(Banner[i])
    ensures !KernelSyscall.Printable(Suffix[|Suffix| - 1]) && !KernelSyscall.Printable(Banner[|Banner| - 1])
  {
  }
}
