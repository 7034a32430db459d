/** The Rust init program of `init/src/main.rs`. */
module InitRs {
  import opened Base
  import opened Uapi

  /** The requests `put_char` issues for the bytes of `s`, one per byte, in
      order. */
  function PutChars(s: seq<u8>): (r: seq<Syscall>)
    ensures |r| == |s| && forall i :: 0 <= i < |s| ==> r[i] == PutChar(s[i])
  {
    if s == [] then [] else PutChars(s[..|s| - 1]) + [PutChar(s[|s| - 1])]
  }

  /** `Printer::write_str`: one `put_char(c, None)` per byte, in order,
      errors ignored, and always `Ok(())` (`ok` is true). */
  method WriteStr(k: Kernel, m: Machine, s: seq<u8>) returns (after: Machine, ok: bool)
    ensures after.traps == m.traps + PutChars(s)
    ensures ok
  {
    after := m;
    var i := 0;
    while i < |s|
      invariant i <= |s|
      invariant after.traps == m.traps + PutChars(s[..i])
    {
      var ignored;
      ignored, after := SysPutChar(k, after, s[i], null);
      assert s[..i + 1][..i] == s[..i];
      i := i + 1;
    }
    assert s[..i] == s;
    ok := true;
  }

  const Banner: seq<u8> := [
    0x48, 0x65, 0x6C, 0x6C, 0x6F, 0x20, 0x66, 0x72, 0x6F, 0x6D, 0x20,
    0x75, 0x73, 0x65, 0x72, 0x6C, 0x61, 0x6E, 0x64, 0x20,
    0x72, 0x75, 0x73, 0x74, 0x21, 0x0A]

  const SecondsSuffix: seq<u8> := [0x20, 0x73, 0x65, 0x63, 0x6F, 0x6E, 0x64, 0x73, 0x0A]

  /** The requests of the counter loop's round for `seconds`. */
  function Round(seconds: nat): seq<Syscall>
  {
    PutChars(Decimal(seconds) + SecondsSuffix) + [SleepMs(1000)]
  }

  /** The requests of the first `n` rounds of the counter loop. */
  function CounterCalls(n: nat): seq<Syscall>
  {
    if n == 0 then [] else CounterCalls(n - 1) + Round(n - 1)
  }

  /** `for _ in 0..n { ping(0, None) }`. */
  method Pings(k: Kernel, m: Machine, n: nat) returns (after: Machine)
    ensures after.traps == m.traps + Repeat(Ping, n)
  {
    after := m;
    var i := 0;
    while i < n
      invariant i <= n
      invariant after.traps == m.traps + Repeat(Ping, i)
    {
      var ignored;
      ignored, after := SysPing(k, after, null);
      i := i + 1;
    }
  }

  /** `for seconds in 0..rounds { print!("{} seconds\n", seconds); sleep_ms(1000, None) }`. */
  method Counter(k: Kernel, m: Machine, rounds: nat) returns (after: Machine)
    ensures after.traps == m.traps + CounterCalls(rounds)
  {
    after := m;
    var seconds := 0;
    while seconds < rounds
      invariant seconds <= rounds
      invariant after.traps == m.traps + CounterCalls(seconds)
    {
      ghost var before := after.traps;
      after := CounterRound(k, after, seconds);
      CounterCallsStep(m.traps, before, seconds);
      seconds := seconds + 1;
    }
  }

  /** Appending one more round's requests to a trace of `n` rounds. */
  lemma CounterCallsStep(t: seq<Syscall>, before: seq<Syscall>, n: nat)
    requires before == t + CounterCalls(n)
    ensures before + Round(n) == t + CounterCalls(n + 1)
  {
    AppendAssoc(t, CounterCalls(n), Round(n));
  }

  /** One turn of the counter loop. */
  method CounterRound(k: Kernel, m: Machine, seconds: nat) returns (after: Machine)
    ensures after.traps == m.traps + Round(seconds)
  {
    var ok;
    after, ok := WriteStr(k, m, Decimal(seconds) + SecondsSuffix);
    var ignored;
    ignored, after := SysSleepMs(k, after, 1000, null);
  }

  /** `main`: three pings, the banner, then for seconds 0..=5 the line
      "<seconds> seconds\n" and a one-second sleep. Every call passes
      `out = None`. */
  method RunMain(k: Kernel, m: Machine) returns (after: Machine)
    ensures after.traps == m.traps + [Ping, Ping, Ping] + PutChars(Banner) + CounterCalls(6)
  {
    after := Pings(k, m, 3);
    assert Repeat(Ping, 3) == [Ping, Ping, Ping];
    var ok;
    after, ok := WriteStr(k, after, Banner);
    after := Counter(k, after, 6);
  }
}
