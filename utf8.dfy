/** UTF-8 as section 3 of RFC 3629 defines it: the encoding of a Unicode
    scalar value, and the well-formedness check that Rust's
    `core::str::from_utf8` performs. */
module Utf8 {
  import opened Base

  /** A Unicode scalar value: a code point that is not a surrogate. */
  predicate IsScalar(cp: nat)
  {
    cp <= 0x10FFFF && !(0xD800 <= cp <= 0xDFFF)
  }

  /** A continuation byte, `10xxxxxx`. */
  predicate IsCont(b: u8)
  {
    0x80 <= b <= 0xBF
  }

  /** The length of the well-formed sequence that starts `s`, or 0 when
      `s` does not start with one (the table in section 4 of RFC 3629:
      no overlong forms, no surrogates, nothing above U+10FFFF). */
  function FirstLen(s: seq<u8>): (n: nat)
    ensures n <= |s| && n <= 4
  {
    if |s| == 0 then 0
    else
      var b := s[0];
      if b < 0x80 then 1
      else if 0xC2 <= b <= 0xDF then
        if |s| >= 2 && IsCont(s[1]) then 2 else 0
      else if 0xE0 <= b <= 0xEF then
        var lo := if b == 0xE0 then 0xA0 else 0x80;
        var hi := if b == 0xED then 0x9F else 0xBF;
        if |s| >= 3 && lo <= s[1] <= hi && IsCont(s[2]) then 3 else 0
      else if 0xF0 <= b <= 0xF4 then
        var lo := if b == 0xF0 then 0x90 else 0x80;
        var hi := if b == 0xF4 then 0x8F else 0xBF;
        if |s| >= 4 && lo <= s[1] <= hi && IsCont(s[2]) && IsCont(s[3]) then 4 else 0
      else 0
  }

  /** `from_utf8(s).is_ok()`: `s` is a run of well-formed sequences. */
  predicate Valid(s: seq<u8>)
    decreases |s|
  {
    s == [] || (FirstLen(s) > 0 && Valid(s[FirstLen(s)..]))
  }

  /** The UTF-8 encoding of scalar value `cp`: 1 to 4 bytes. */
  function Encode(cp: nat): (r: seq<u8>)
    requires IsScalar(cp)
    ensures 1 <= |r| <= 4
  {
    if cp < 0x80 then [cp]
    else if cp < 0x800 then [0xC0 + cp / 64, 0x80 + cp % 64]
    else if cp < 0x1_0000 then [0xE0 + cp / 4096, 0x80 + (cp / 64) % 64, 0x80 + cp % 64]
    else [0xF0 + cp / 262144, 0x80 + (cp / 4096) % 64, 0x80 + (cp / 64) % 64, 0x80 + cp % 64]
  }

  /** The encoding of a scalar value is one well-formed sequence, whatever
      follows it. */
  lemma {:induction false} EncodeFirstLen(cp: nat, rest: seq<u8>)
    requires IsScalar(cp)
    ensures FirstLen(Encode(cp) + rest) == |Encode(cp)|
  {
    if cp < 0x800 {
      assert (Encode(cp) + rest)[0] == Encode(cp)[0];
    } else if cp < 0x1_0000 {
      ThreeByteFirstLen(cp, rest);
    } else {
      FourByteFirstLen(cp, rest);
    }
  }

  /** The three-byte case: the second byte respects the bounds after
      0xE0 (no overlong form) and 0xED (no surrogate). */
  lemma {:induction false} ThreeByteFirstLen(cp: nat, rest: seq<u8>)
    requires IsScalar(cp) && 0x800 <= cp < 0x1_0000
    ensures FirstLen(Encode(cp) + rest) == 3
  {
    var s := Encode(cp) + rest;
    assert s[0] == 0xE0 + cp / 4096 && s[1] == 0x80 + (cp / 64) % 64 && s[2] == 0x80 + cp % 64;
    if cp < 0x1000 {
      assert cp / 4096 == 0 && cp / 64 >= 32;
    } else if 0xD000 <= cp < 0xE000 {
      assert cp / 4096 == 13 && cp < 0xD800 && (cp / 64) % 64 < 32;
    }
  }

  /** The four-byte case: the second byte respects the bounds after 0xF0
      (no overlong form) and 0xF4 (nothing above U+10FFFF). */
  lemma {:induction false} FourByteFirstLen(cp: nat, rest: seq<u8>)
    requires IsScalar(cp) && 0x1_0000 <= cp
    ensures FirstLen(Encode(cp) + rest) == 4
  {
    var s := Encode(cp) + rest;
    assert s[0] == 0xF0 + cp / 262144 && s[1] == 0x80 + (cp / 4096) % 64;
    assert s[2] == 0x80 + (cp / 64) % 64 && s[3] == 0x80 + cp % 64;
    if cp < 0x4_0000 {
      assert cp / 262144 == 0 && cp / 4096 >= 16;
    } else if cp >= 0x10_0000 {
      assert cp / 262144 == 4 && (cp / 4096) % 64 < 16;
    }
  }

  /** Encoding a string of scalar values gives valid UTF-8. */
  lemma {:induction false} EncodeAllValid(cps: seq<nat>)
    requires forall i :: 0 <= i < |cps| ==> IsScalar(cps[i])
    ensures Valid(EncodeAll(cps))
    decreases |cps|
  {
    if cps != [] {
      EncodeFirstLen(cps[0], EncodeAll(cps[1..]));
      EncodeAllValid(cps[1..]);
      assert (Encode(cps[0]) + EncodeAll(cps[1..]))[|Encode(cps[0])|..] == EncodeAll(cps[1..]);
    }
  }

  /** The encodings of `cps`, one after the other. */
  function EncodeAll(cps: seq<nat>): seq<u8>
    requires forall i :: 0 <= i < |cps| ==> IsScalar(cps[i])
    decreases |cps|
  {
    if cps == [] then [] else Encode(cps[0]) + EncodeAll(cps[1..])
  }

  /** A lone continuation byte and a surrogate's encoding are refused. */
  lemma {:induction false} InvalidExamples()
    ensures !Valid([0x80])
    ensures !Valid([0xED, 0xA0, 0x80])
    ensures !Valid([0xC0, 0x80])
  {
  }
}
