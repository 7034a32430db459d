/** The user-side definitions of `libkernel/src/lib.rs` for the two-word
    convention: the opcode byte, the packed 64-bit op word and the status
    values. */
module LibKernel {
  import opened Base

  datatype OpCode = Ping | GetKbdCode | Exit

  /** The `#[repr(u8)]` discriminant. */
  function Discriminant(op: OpCode): u8
  {
    match op
    case Ping => 0
    case GetKbdCode => 1
    case Exit => 127
  }

  /** `SyscallOpCode::try_from(u8)`; `Err(())` is `None`. */
  function OpCodeTryFrom(b: u8): (r: Option<OpCode>)
    ensures r.Some? <==> b in {0, 1, 127}
    ensures r.Some? ==> Discriminant(r.value) == b
  {
    match b
    case 0 => Some(Ping)
    case 1 => Some(GetKbdCode)
    case 127 => Some(Exit)
    case _ => None
  }

  lemma OpCodeRoundTrip(op: OpCode)
    ensures OpCodeTryFrom(Discriminant(op)) == Some(op)
  {
  }

  /** The `#[repr(C, packed)]` intermediate record the op word is
      reinterpreted as. */
  datatype RawOp = RawOp(opcode: u8, argU8: u8, argU16: u16, argU32: u32)

  /** Little-endian layout of the packed record: byte 0, byte 1, bytes 2-3
      and bytes 4-7 of the word. */
  function Pack(f: RawOp): u64
  {
    f.opcode + 0x100 * f.argU8 + 0x1_0000 * f.argU16 + 0x1_0000_0000 * f.argU32
  }

  /** The `transmute` of a `u64` into the packed record. */
  function Unpack(v: u64): RawOp
  {
    RawOp(v % 0x100, (v / 0x100) % 0x100, (v / 0x1_0000) % 0x1_0000, v / 0x1_0000_0000)
  }

  lemma DivDiv(x: nat, a: nat, b: nat)
    requires a > 0 && b > 0
    ensures x / a / b == x / (a * b)
  {
    var d := x / a;
    var s := x % a;
    var q := d / b;
    var r := d % b;
    Recombine(x, a, b, d, q, r, s);
    DivModUnique(x, a * b, q, a * r + s);
  }

  /** Two nested divisions recombine into one: `x == a * d + s` with
      `d == b * q + r` is `x == (a * b) * q + (a * r + s)`, and the new
      remainder stays below `a * b`. */
  lemma Recombine(x: nat, a: nat, b: nat, d: nat, q: nat, r: nat, s: nat)
    requires x == a * d + s && d == b * q + r && r < b && s < a
    ensures x == (a * b) * q + (a * r + s) && a * r + s < a * b
  {
    MulAdd(a, b * q, r);
    assert a * (b * q) == (a * b) * q;
    MulMono(a, r, b - 1);
    MulAdd(a, b - 1, 1);
  }

  /** Reinterpreting the word and packing the record again gives the word
      back: no bit is lost or moved. */
  lemma {:induction false} PackUnpack(v: u64)
    ensures Pack(Unpack(v)) == v
  {
    var a := v / 0x100;
    DivDiv(v, 0x100, 0x100);
    DivDiv(v, 0x1_0000, 0x1_0000);
    var b := v / 0x1_0000;
    var c := v / 0x1_0000_0000;
    assert v == 0x100 * a + v % 0x100;
    assert a == 0x100 * b + a % 0x100;
    assert b == 0x1_0000 * c + b % 0x1_0000;
  }

  /** Packing a record and reinterpreting the word gives the record back. */
  lemma {:induction false} UnpackPack(f: RawOp)
    ensures Unpack(Pack(f)) == f
  {
    var v := Pack(f);
    var hi16 := f.argU16 + 0x1_0000 * f.argU32;
    var hi8 := f.argU8 + 0x100 * hi16;
    assert v == 0x100 * hi8 + f.opcode;
    DivModUnique(v, 0x100, hi8, f.opcode);
    DivModUnique(hi8, 0x100, hi16, f.argU8);
    DivDiv(v, 0x100, 0x100);
    DivModUnique(hi16, 0x1_0000, f.argU32, f.argU16);
    DivDiv(v, 0x1_0000, 0x1_0000);
  }

  datatype SyscallOp = SyscallOp(opcode: OpCode, argU8: u8, argU16: u16, argU32: u32)

  /** The op word a user program puts in r14 for `op`. */
  function Encode(op: SyscallOp): u64
  {
    Pack(RawOp(Discriminant(op.opcode), op.argU8, op.argU16, op.argU32))
  }

  /** `SyscallOp::try_from(u64)`. */
  function OpTryFrom(v: u64): (r: Option<SyscallOp>)
    ensures r.Some? <==> OpCodeTryFrom(v % 0x100).Some?
    ensures r.Some? ==>
      r.value.argU8 == (v / 0x100) % 0x100
      && r.value.argU16 == (v / 0x1_0000) % 0x1_0000 && r.value.argU32 == v / 0x1_0000_0000
  {
    var raw := Unpack(v);
    match OpCodeTryFrom(raw.opcode)
    case None => None
    case Some(opcode) => Some(SyscallOp(opcode, raw.argU8, raw.argU16, raw.argU32))
  }

  /** A successful decode re-packs to the word it came from. */
  lemma EncodeOpTryFrom(v: u64)
    requires OpTryFrom(v).Some?
    ensures Encode(OpTryFrom(v).value) == v
  {
    PackUnpack(v);
  }

  /** Every op a user program can form survives the trip through the word. */
  lemma OpTryFromEncode(op: SyscallOp)
    ensures OpTryFrom(Encode(op)) == Some(op)
  {
    UnpackPack(RawOp(Discriminant(op.opcode), op.argU8, op.argU16, op.argU32));
  }

  datatype Status = Ok | Error | InvalidOp

  /** `impl From<SyscallStatus> for u64`. */
  function StatusValue(s: Status): u64
  {
    match s
    case Ok => 0
    case Error => 0x8000_0000_0000_0000
    case InvalidOp => 0xFFFF_FFFF_FFFF_FFFF
  }

  /** The statuses are told apart by their values: zero, the top bit
      alone, and all ones. */
  lemma StatusValueInjective(s: Status, t: Status)
    ensures StatusValue(s) == StatusValue(t) <==> s == t
    ensures StatusValue(s) == 0 <==> s == Status.Ok
    ensures StatusValue(s) == U64_MAX <==> s == InvalidOp
  {
  }
}
