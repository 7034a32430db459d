/** The symbol lookup of the kernel's panic backtrace
    (`kernel/src/panic/unwind.rs`): whether an instruction pointer lies in
    the kernel image, reading a NUL-terminated name out of the ELF string
    table, and finding the function symbol that covers an address. The
    tables are given as values; how `SymbolFinder::new` locates them in
    memory is not part of this model. */
module Unwind {
  import opened Base
  import Utf8

  const U64_LIMIT: nat := 0x1_0000_0000_0000_0000
  /** Where the kernel's code is linked. */
  const KERNEL_LINK_BASE: nat := 0xFFFF_FFFF_8000_0000
  /** `STT_FUNC`: the symbol type of a function. */
  const STT_FUNC: nat := 2

  const NOT_INITIALIZED: string := "called `Option::unwrap()` on a `None` value"
  const ADD_OVERFLOW: string := "attempt to add with overflow"
  const SUB_OVERFLOW: string := "attempt to subtract with overflow"

  /** `is_kernel_ip`: `ip` is in `kstart..kstart + klen`; both statics
      must be set, and the end must not overflow. */
  function IsKernelIp(kstart: Option<u64>, klen: Option<u64>, ip: u64): (r: Run<bool>)
    ensures (kstart.None? || klen.None?) <==> r == Panics(NOT_INITIALIZED)
    ensures r.Returns? ==> kstart.Some? && klen.Some? && (r.value <==> kstart.value <= ip < kstart.value + klen.value)
  {
    if kstart.None? || klen.None? then Panics(NOT_INITIALIZED)
    else if kstart.value + klen.value >= U64_LIMIT then Panics(ADD_OVERFLOW)
    else Returns(kstart.value <= ip < kstart.value + klen.value)
  }

  /** `kernel_code_offset`: what is added to a run-time address to get its
      link-time address. */
  function KernelCodeOffset(load: u64): (r: Run<u64>)
    ensures r.Returns? <==> load <= KERNEL_LINK_BASE
    ensures r.Returns? ==> load + r.value == KERNEL_LINK_BASE
  {
    if load > KERNEL_LINK_BASE then Panics(SUB_OVERFLOW) else Returns(KERNEL_LINK_BASE - load)
  }

  /** The fields of an `Elf64_Sym` the lookup reads. */
  datatype Sym = Sym(name: u32, info: u8, value: u64, size: u64)

  /** `Sym::is_function`: the low four bits of `st_info` are `STT_FUNC`. */
  predicate IsFunction(s: Sym)
  {
    s.info % 16 == STT_FUNC
  }

  /** `SymbolFinder`: the string table, the symbol table and the code
      offset. */
  datatype SymbolFinder = SymbolFinder(strtab: seq<u8>, symtab: seq<Sym>, codeOffset: u64)

  /** The index of the first NUL at or after `i`, if there is one. */
  function NulFrom(strtab: seq<u8>, i: nat): (r: Option<nat>)
    ensures r.Some? ==> i <= r.value < |strtab| && strtab[r.value] == 0
    decreases |strtab| - i
  {
    if i >= |strtab| then None
    else if strtab[i] == 0 then Some(i)
    else NulFrom(strtab, i + 1)
  }

  /** `get_str`: the bytes from `offset` to the next NUL, when there is a
      NUL before the end of the table and the bytes are valid UTF-8. */
  function StrAt(strtab: seq<u8>, offset: nat): Option<seq<u8>>
  {
    match NulFrom(strtab, offset)
    case None => None
    case Some(end) =>
      if Utf8.Valid(strtab[offset..end]) then Some(strtab[offset..end]) else None
  }

  /** The NUL search finds the first NUL from `i` on, and nothing exactly
      when there is none. */
  lemma {:induction false} NulFromMeaning(strtab: seq<u8>, i: nat)
    ensures NulFrom(strtab, i).None? <==> forall k :: i <= k < |strtab| ==> strtab[k] != 0
    ensures NulFrom(strtab, i).Some? ==> forall k :: i <= k < NulFrom(strtab, i).value ==> strtab[k] != 0
    decreases |strtab| - i
  {
    if i < |strtab| && strtab[i] != 0 {
      NulFromMeaning(strtab, i + 1);
    }
  }

  /** A name is read back exactly: a valid UTF-8 name without NUL bytes,
      stored at `|before|` and followed by a NUL, is what `get_str` returns
      for that offset. */
  lemma {:induction false} StrAtRoundTrip(before: seq<u8>, name: seq<u8>, after: seq<u8>)
    requires Utf8.Valid(name) && forall k :: 0 <= k < |name| ==> name[k] != 0
    ensures StrAt(before + name + [0] + after, |before|) == Some(name)
  {
    var t := before + name + [0] + after;
    NulFromMeaning(t, |before|);
    forall k | |before| <= k < |before| + |name|
      ensures t[k] != 0
    {
      assert t[k] == name[k - |before|];
    }
    assert t[|before| + |name|] == 0;
    assert t[|before|..|before| + |name|] == name;
  }

  /** What `get_str` returns is the string that ends at the first NUL:
      valid UTF-8, free of NUL bytes and followed by a NUL. */
  lemma {:induction false} StrAtMeaning(strtab: seq<u8>, offset: nat)
    ensures StrAt(strtab, offset).Some? ==>
      var name := StrAt(strtab, offset).value;
      && offset + |name| < |strtab| && strtab[offset..offset + |name|] == name
      && strtab[offset + |name|] == 0 && Utf8.Valid(name)
      && forall k :: 0 <= k < |name| ==> name[k] != 0
    ensures (forall k :: offset <= k < |strtab| ==> strtab[k] != 0) ==> StrAt(strtab, offset).None?
  {
    NulFromMeaning(strtab, offset);
    if StrAt(strtab, offset).Some? {
      var end := NulFrom(strtab, offset).value;
      var name := strtab[offset..end];
      forall k | 0 <= k < |name|
        ensures name[k] != 0
      {
        assert name[k] == strtab[offset + k];
      }
    }
  }

  /** `get_str`. */
  method GetStr(finder: SymbolFinder, offset: nat) returns (r: Option<seq<u8>>)
    ensures r == StrAt(finder.strtab, offset)
  {
    var len := 0;
    while true
      invariant NulFrom(finder.strtab, offset + len) == NulFrom(finder.strtab, offset)
      decreases |finder.strtab| - (offset + len)
    {
      if offset + len >= |finder.strtab| {
        return None;
      }
      if finder.strtab[offset + len] == 0 {
        break;
      }
      len := len + 1;
    }
    if Utf8.Valid(finder.strtab[offset..offset + len]) {
      return Some(finder.strtab[offset..offset + len]);
    }
    return None;
  }

  /** Symbol `s` is a function whose extent `[st_value, st_value +
      st_size)` holds `v`. */
  predicate Covers(s: Sym, v: nat)
  {
    IsFunction(s) && s.value <= v < s.value + s.size
  }

  /** The `find` of `lookup_symbol` from symbol `i` on: the conditions are
      evaluated in order, and `st_value + st_size` is a checked addition. */
  function FindFrom(symtab: seq<Sym>, v: u64, i: nat): (r: Run<Option<nat>>)
    requires i <= |symtab|
    ensures r.Returns? && r.value.Some? ==> i <= r.value.value < |symtab| && symtab[r.value.value].value <= v
    decreases |symtab| - i
  {
    if i == |symtab| then Returns(None)
    else
      var s := symtab[i];
      if !IsFunction(s) || s.value > v then FindFrom(symtab, v, i + 1)
      else if s.value + s.size >= U64_LIMIT then Panics(ADD_OVERFLOW)
      else if s.value + s.size > v then Returns(Some(i))
      else FindFrom(symtab, v, i + 1)
  }

  /** When the search returns, it has found the first symbol from `i` on
      that covers `v`, or there is none. */
  lemma {:induction false} FindFromMeaning(symtab: seq<Sym>, v: u64, i: nat)
    requires i <= |symtab|
    ensures FindFrom(symtab, v, i) == Returns(None) ==> forall j :: i <= j < |symtab| ==> !Covers(symtab[j], v)
    ensures FindFrom(symtab, v, i).Returns? && FindFrom(symtab, v, i).value.Some? ==>
      var k := FindFrom(symtab, v, i).value.value;
      && i <= k < |symtab| && Covers(symtab[k], v)
      && forall j :: i <= j < k ==> !Covers(symtab[j], v)
    decreases |symtab| - i
  {
    if i < |symtab| {
      FindFromMeaning(symtab, v, i + 1);
    }
  }

  /** Without an extent that reaches 2^64, the search never panics. */
  lemma {:induction false} FindFromReturns(symtab: seq<Sym>, v: u64, i: nat)
    requires i <= |symtab|
    requires forall j :: i <= j < |symtab| ==> symtab[j].value + symtab[j].size < U64_LIMIT
    ensures FindFrom(symtab, v, i).Returns?
    decreases |symtab| - i
  {
    if i < |symtab| {
      FindFromReturns(symtab, v, i + 1);
    }
  }

  /** `lookup_symbol`: shift the address to its link-time value (a checked
      addition), find the first function symbol covering it, and return
      its name with the offset into it. */
  function LookupSymbol(finder: SymbolFinder, vaddr: u64): Run<Option<(seq<u8>, nat)>>
  {
    if vaddr + finder.codeOffset >= U64_LIMIT then Panics(ADD_OVERFLOW)
    else
      var v := vaddr + finder.codeOffset;
      match FindFrom(finder.symtab, v, 0)
      case Panics(m) => Panics(m)
      case Returns(None) => Returns(None)
      case Returns(Some(k)) =>
        match StrAt(finder.strtab, finder.symtab[k].name)
        case None => Returns(None)
        case Some(name) => Returns(Some((name, v - finder.symtab[k].value)))
  }

  /** A symbol is reported only for the first function symbol, in table
      order, that covers the shifted address, with the offset of the
      address into it and its readable name; nothing is reported exactly
      when no symbol covers the address or that symbol's name is
      unreadable. */
  lemma {:induction false} LookupSymbolMeaning(finder: SymbolFinder, vaddr: u64)
    ensures LookupSymbol(finder, vaddr).Returns? ==>
      var v := vaddr + finder.codeOffset;
      match LookupSymbol(finder, vaddr).value
      case Some((name, off)) =>
        exists k :: 0 <= k < |finder.symtab| && Covers(finder.symtab[k], v)
          && (forall j :: 0 <= j < k ==> !Covers(finder.symtab[j], v))
          && StrAt(finder.strtab, finder.symtab[k].name) == Some(name)
          && off == v - finder.symtab[k].value && off < finder.symtab[k].size
      case None =>
        || (forall j :: 0 <= j < |finder.symtab| ==> !Covers(finder.symtab[j], v))
        || (exists k :: 0 <= k < |finder.symtab| && Covers(finder.symtab[k], v)
              && StrAt(finder.strtab, finder.symtab[k].name).None?)
  {
    if vaddr + finder.codeOffset < U64_LIMIT {
      FindFromMeaning(finder.symtab, vaddr + finder.codeOffset, 0);
    }
  }

  /** `lookup_symbol`, with the `find` written out as a loop. */
  method Lookup(finder: SymbolFinder, vaddr: u64) returns (r: Run<Option<(seq<u8>, nat)>>)
    ensures r == LookupSymbol(finder, vaddr)
  {
    if vaddr + finder.codeOffset >= U64_LIMIT {
      return Panics(ADD_OVERFLOW);
    }
    var v := vaddr + finder.codeOffset;
    var i := 0;
    while i < |finder.symtab|
      invariant i <= |finder.symtab|
      invariant FindFrom(finder.symtab, v, i) == FindFrom(finder.symtab, v, 0)
      decreases |finder.symtab| - i
    {
      var s := finder.symtab[i];
      if IsFunction(s) && s.value <= v {
        if s.value + s.size >= U64_LIMIT {
          return Panics(ADD_OVERFLOW);
        }
        if s.value + s.size > v {
          var name := GetStr(finder, s.name);
          if name.None? {
            return Returns(None);
          }
          return Returns(Some((name.value, v - s.value)));
        }
      }
      i := i + 1;
    }
    return Returns(None);
  }
}
