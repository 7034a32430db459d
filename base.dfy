/** Machine words and the small wrapper types shared by every module. */
module Base {
  /** Unsigned and signed machine integers, as ranges of mathematical integers. */
  type u8 = x: int | 0 <= x < 0x100
  type u16 = x: int | 0 <= x < 0x1_0000
  type u32 = x: int | 0 <= x < 0x1_0000_0000
  type u64 = x: int | 0 <= x < 0x1_0000_0000_0000_0000
  type i8 = x: int | -0x80 <= x < 0x80

  const U64_MAX: u64 := 0xFFFF_FFFF_FFFF_FFFF

  datatype Option<T> = None | Some(value: T)

  datatype Result<T, E> = Ok(value: T) | Err(error: E)

  /** The outcome of code that may panic: a Rust `panic!`, a failed
      `assert!`/`unwrap`, or an out-of-range slice. */
  datatype Run<T> = Returns(value: T) | Panics(reason: string)

  /** Rust's `next_multiple_of`: the least multiple of `m` that is at
      least `x`. */
  function NextMultipleOf(x: nat, m: nat): (r: nat)
    requires m > 0
    ensures r % m == 0 && x <= r < x + m
  {
    if x % m == 0 then x
    else
      var q := x / m;
      assert x == m * q + x % m;
      assert x + (m - x % m) == m * (q + 1);
      MulDiv(m, q + 1);
      x + (m - x % m)
  }

  /** Multiplication distributes over addition. */
  lemma MulAdd(a: int, x: int, d: int)
    ensures a * (x + d) == a * x + a * d
  {
  }

  /** Multiplying by a natural number is monotonic. */
  lemma MulMono(p: nat, x: nat, y: nat)
    requires x <= y
    ensures p * x <= p * y
  {
    MulAdd(p, x, y - x);
  }

  /** Quotient and remainder are determined by `x == p * q + r` with
      `0 <= r < p`. */
  lemma DivModUnique(x: nat, p: nat, q: nat, r: nat)
    requires p > 0 && x == p * q + r && r < p
    ensures x / p == q && x % p == r
  {
    var q', r' := x / p, x % p;
    assert x == p * q' + r' && 0 <= r' < p;
    if q' < q {
      MulAdd(p, q', q - q');
      MulMono(p, 1, q - q');
    } else if q' > q {
      MulAdd(p, q, q' - q);
      MulMono(p, 1, q' - q);
    }
  }

  /** Division undoes multiplication by a positive number. */
  lemma MulDiv(p: nat, a: nat)
    requires p > 0
    ensures (p * a) % p == 0 && (p * a) / p == a
  {
    DivModUnique(p * a, p, a, 0);
  }

  /** Adding a multiple of `p` does not change the remainder by `p`. */
  lemma ModAddMul(x: nat, p: nat, a: nat)
    requires p > 0
    ensures (x + p * a) % p == x % p
  {
    MulAdd(p, x / p, a);
    DivModUnique(x + p * a, p, x / p + a, x % p);
  }

  /** The state after a step that returns `()` or panics: `Returns` of
      the new state, or the panic with its reason. */
  function Outcome<T>(r: Run<()>, state: T): Run<T>
  {
    if r.Returns? then Returns(state) else Panics(r.reason)
  }

  /** `after` keeps every entry of `before` as it was. */
  ghost predicate Extends<K, V>(before: map<K, V>, after: map<K, V>)
  {
    forall k :: k in before ==> k in after && after[k] == before[k]
  }

  /** 256 to the power `n`: one more than the largest `n`-byte value. */
  function Pow256(n: nat): (r: nat)
    ensures r >= 1
  {
    if n == 0 then 1 else 256 * Pow256(n - 1)
  }

  /** The number whose little-endian bytes are `s`, as
      `u32::from_le_bytes` and `u64::from_le_bytes` read it. */
  function LeValue(s: seq<u8>): nat
  {
    if s == [] then 0 else s[0] + 256 * LeValue(s[1..])
  }

  /** The `n` little-endian bytes of `v` (its value modulo `Pow256(n)`),
      as `to_le_bytes` or a `repr(C)` field in memory lays them out. */
  function LeBytes(v: nat, n: nat): (r: seq<u8>)
    ensures |r| == n
  {
    if n == 0 then [] else [v % 256] + LeBytes(v / 256, n - 1)
  }

  /** Reading back the bytes of a value that fits gives the value. */
  lemma {:induction false} LeValueOfBytes(v: nat, n: nat)
    requires v < Pow256(n)
    ensures LeValue(LeBytes(v, n)) == v
  {
    if n > 0 {
      var t := LeBytes(v / 256, n - 1);
      assert v / 256 < Pow256(n - 1);
      LeValueOfBytes(v / 256, n - 1);
      assert ([v % 256] + t)[1..] == t;
    }
  }

  /** Writing out the value of some bytes gives the same bytes back, so
      the value is below `Pow256(|s|)`. */
  lemma {:induction false} LeBytesOfValue(s: seq<u8>)
    ensures LeValue(s) < Pow256(|s|)
    ensures LeBytes(LeValue(s), |s|) == s
  {
    if s != [] {
      var rest := LeValue(s[1..]);
      LeBytesOfValue(s[1..]);
      DivModUnique(LeValue(s), 256, rest, s[0]);
      MulMono(256, rest + 1, Pow256(|s| - 1));
      assert s == [s[0]] + s[1..];
    }
  }

  lemma AppendAssoc<T>(a: seq<T>, b: seq<T>, c: seq<T>)
    ensures a + (b + c) == (a + b) + c
  {
  }

  /** `n` copies of `x`. */
  function Repeat<T>(x: T, n: nat): (r: seq<T>)
    ensures |r| == n && forall i :: 0 <= i < n ==> r[i] == x
  {
    if n == 0 then [] else Repeat(x, n - 1) + [x]
  }

  /** `s` back to front. */
  function Reverse<T>(s: seq<T>): (r: seq<T>)
    ensures |r| == |s| && forall i :: 0 <= i < |s| ==> r[i] == s[|s| - 1 - i]
  {
    seq(|s|, i requires 0 <= i < |s| => s[|s| - 1 - i])
  }

  /** The ASCII decimal digits of `n`, most significant first, with no
      leading zero: what Rust's `Display` prints for a non-negative integer. */
  function Decimal(n: nat): (r: seq<u8>)
    ensures |r| >= 1
    ensures forall i :: 0 <= i < |r| ==> 0x30 <= r[i] <= 0x39
    ensures |r| > 1 ==> r[0] != 0x30
  {
    if n < 10 then [0x30 + n] else Decimal(n / 10) + [0x30 + n % 10]
  }

  /** The number a string of ASCII decimal digits denotes. */
  function DigitsValue(s: seq<u8>): nat
  {
    if s == [] then 0
    else if 0x30 <= s[|s| - 1] <= 0x39 then DigitsValue(s[..|s| - 1]) * 10 + (s[|s| - 1] - 0x30)
    else DigitsValue(s[..|s| - 1]) * 10
  }

  /** Reading the digits back gives the number. */
  lemma {:induction false} DecimalRoundTrip(n: nat)
    ensures DigitsValue(Decimal(n)) == n
  {
    if n >= 10 {
      DecimalRoundTrip(n / 10);
      var d := Decimal(n / 10);
      assert (d + [0x30 + n % 10])[..|d|] == d;
    }
  }
}
