# pc-os kernel core in Dafny

A model of the core of pc-os, a small x86-64 hobby kernel, and of its user-space runtime, with proofs about that model. Each source file becomes one Dafny module (one file under this directory), in the form the source takes: pure matches and encoders become functions and lemmas, and objects updated in place become classes with `modifies` clauses. Every loop that changes state becomes a method proved against a specification function, and the properties are proved about that function.

- **The user/kernel call boundary.**
  - `Base` holds the shared vocabulary: fixed-width integers, `Run` (a value or a panic), `Result`, `Option`, little-endian words and alignment arithmetic.
  - `RegisterAbi` and `LibcSys` cover the register convention of `libc/syscall.c` and the typed C wrappers.
  - `LibKernel`, `KernelSyscall` and `KernelSyscalls` cover the packed 64-bit op word of `api/syscall.c` and its decoders on both sides.
  - `Uapi` covers the struct-pointer wrappers of `kernel-uapi`.
  - `LibStd`, `InitRs` and `InitC` cover the runtime entry points and the `init` programs.
  - The `syscall` instruction is one trap over a register record. Every trap is recorded in a trace that the results carry. That trace states "exactly one trap", "arguments zero-padded" and "never returns": a non-returning loop is observed for any number of iterations.
- **Allocators and queues.**
  - Buddy allocator:
    - `BuddyBitmaps` is the bitmap class.
    - `BuddyLayout`, `BuddyOps`, `BuddyDiscipline` and `BuddyExhaustion` hold its specification and the discipline it keeps.
    - `BuddyRegion` covers the per-region allocator.
    - `BuddyManager` covers the manager over all regions.
  - `BootFrames` covers the boot frame allocators.
  - `Heap` covers `align_up` and the heap's page range.
  - `Exec` covers ELF loading: the header checks, page chunking and the kernel-stack layout.
  - `ProcessExecutor` is the round-robin process queue.
  - `Tasks` and `Timer` cover the async task executor and the 128-slot timer table.
  - `Logging` is the bounded log queue.
- **Parsers, encoders and screens.**
  - `Ustar` is the USTAR archive reader.
  - `Utf8` is a UTF-8 validator and encoder, following section 3 of RFC 3629.
  - `Font` covers the PSF header getters, both glyph-table decoders and glyph lookup.
  - `Unwind` covers kernel-address checks and ELF symbol lookup.
  - Framebuffers:
    - `Framebuffer` covers the kernel's pixels, rectangles and blit clipping.
    - `Text` holds the line splitting and glyph stepping that the consoles share.
    - `Console` is the framebuffer console.
    - `Vesa` and `LegacyVesa` are the two VESA screens and their scrolling consoles.
    - `Vga` covers the VGA text writer and its `Style` byte.
  - `LibcString` covers `memcpy`, `memmove`, `memcmp` and `memset`.
  - `Runner` covers the host runner's exit-code decoding, test-mode detection and printable-byte filter.

A panic in the source is a `Panics` outcome in the model. Integer overflow that a debug build checks (`*`, `+`, `-` on `usize`) panics where it can happen in the modelled range. Wrapping operations (`fetch_add`, `as` casts) are reduced modulo the type's range explicitly.

## Model

| member | source | states |
|---|---|---|
| RegisterAbi.Syscall4 | libc/syscall.c:24-46 | one trap whose register file has op in rax and the four arguments in rdi, rsi, rdx and r8 (r14, r15 untouched); the result is the post-trap rax and the trace grows by exactly that trap |
| RegisterAbi.Syscall0 | libc/syscall.c:4-7 | exactly one trap, with the `__syscall4` frame whose four argument registers are zero; returns the post-trap rax |
| RegisterAbi.Syscall1 | libc/syscall.c:9-12 | exactly one trap, frame with arg0 and three zero registers; returns the post-trap rax |
| RegisterAbi.Syscall2 | libc/syscall.c:14-17 | exactly one trap, frame with arg0, arg1 and two zero registers; returns the post-trap rax |
| RegisterAbi.Syscall3 | libc/syscall.c:19-22 | exactly one trap, frame with arg0..arg2 and a zero r8; returns the post-trap rax |
| RegisterAbi.ResultIsPostTrapRax | libc/syscall.c:35-45 | two kernels that leave the same rax give the same result and the same trace, whatever else they change |
| RegisterAbi.TwoWordSyscall | api/syscall.c:3-21 | one trap with the op word in r14 and the target in r15; the result is the post-trap r14 |
| RegisterAbi.R15Unobservable | api/syscall.c:13-20 | the post-trap r15 (and every register but r14) never reaches the caller |
| RegisterAbi.HandlerKernel | api/syscall.c:9-13 | the kernel side of the r14/r15 convention hands the dispatcher r14 and r15 and puts its status in r14 |
| RegisterAbi.TwoWordRoundTrip | api/syscall.c:3-21 | through the trampoline and the handler, the dispatcher sees exactly the caller's op word and target and the caller gets exactly its status |
| LibcSys.Putchar | libc/sys/putchar.c:5-16 | one trap with `SYS_PUTCHAR` and the byte in rdi; returns 1 for any non-zero kernel answer and 0 for zero, nothing else |
| LibcSys.PutcharTrapsForEveryByte | libc/sys/putchar.c:7 | every byte, 0x00 and 0xFF included, reaches the kernel unchanged in rdi |
| LibcSys.PutcharViaDispatch | libc/sys/putchar.c:5-16 | against the kernel's `syscall_dispatch`, `putchar` returns 0 exactly for printable ASCII and newline |
| LibcSys.SleepMs | libc/sys/sleep.c:5-8 | one trap with `SYS_SLEEP_MS` and the duration in rdi, nothing else |
| LibcSys.Ping | libc/sys/ping.c:6-9 | one trap with `SYS_PING` and zero arguments |
| LibcSys.ResultsDiscarded | libc/sys/sleep.c:7 | the trace `sleep_ms` and `ping` leave does not depend on the kernel's answer |
| LibcSys.Abort | libc/stdlib/abort.c:6-12 | exactly one trap, `SYS_EXIT` with 0, and no further trap however long the final loop spins |
| LibKernel.OpCodeTryFrom | libkernel/src/lib.rs:16-28 | exactly the bytes 0, 1 and 127 decode, each to the variant with that discriminant |
| LibKernel.OpCodeRoundTrip | libkernel/src/lib.rs:5-28 | decoding a variant's discriminant gives the variant back |
| LibKernel.PackUnpack | libkernel/src/lib.rs:42-55 | reinterpreting a word as the packed little-endian record and packing it again gives the word back |
| LibKernel.UnpackPack | libkernel/src/lib.rs:42-55 | packing a record and reinterpreting the word gives the record back |
| LibKernel.OpTryFrom | libkernel/src/lib.rs:39-64 | a word decodes exactly when its low byte is a known opcode; the arguments are byte 1, bytes 2-3 and bytes 4-7 |
| LibKernel.EncodeOpTryFrom | libkernel/src/lib.rs:39-64 | a word that decodes is the encoding of what it decodes to |
| LibKernel.OpTryFromEncode | libkernel/src/lib.rs:30-64 | every op a program can form decodes from its own encoding |
| LibKernel.StatusValueInjective | libkernel/src/lib.rs:66-78 | the three status values are distinct; only `Ok` is 0 and only `InvalidOp` is all ones |
| KernelSyscall.TryFromU32 | kernel/src/syscall/mod.rs:20-34 | decodes exactly the five `SYS_*` numbers, each to the variant whose discriminant it is; anything else is `Err(())` |
| KernelSyscall.TryFromDiscriminant | kernel/src/syscall/mod.rs:7-34 | with distinct `SYS_*` numbers, decoding a variant's discriminant gives that variant back |
| KernelSyscall.New | kernel/src/syscall/mod.rs:43-48 | `None` exactly when the opcode does not decode; otherwise the decoded opcode with the arguments unchanged |
| KernelSyscall.StatusValueInjective | kernel/src/syscall/mod.rs:50-62 | the `u64` values of the three statuses are distinct; only `Ok` is 0 and only `InvalidOp` is all ones |
| KernelSyscall.Dispatch | kernel/src/syscall/dispatch.rs:5-67 | `Ping` prints "Ping!\n" and is `Ok`; `PutChar` is `Ok` and prints the byte exactly when arg0 < 256 and is printable ASCII or a newline, otherwise `Error` and prints nothing; `GetKbdCode` is `Error`; `SleepMs` and `Exit` hand the process to the executor |
| KernelSyscall.DispatchReadsOnlyFirstArg | kernel/src/syscall/dispatch.rs:12-24 | only `args[0]` affects the outcome |
| KernelSyscalls.OpCodeTryFrom | kernel/src/syscall/syscalls.rs:14-26 | exactly the bytes 0, 1 and 127 decode, each to the variant with that discriminant |
| KernelSyscalls.TablesAgree | kernel/src/syscall/syscalls.rs:3-26 | the kernel's opcode table and the user library's accept the same bytes, decode them to same-named variants and give them the same discriminants |
| KernelSyscalls.OpTryFrom | kernel/src/syscall/syscalls.rs:36-55 | a word decodes exactly when its low byte is a known opcode, which is then the decoded opcode's discriminant |
| KernelSyscalls.KernelDecodesUserEncoding | kernel/src/syscall/syscalls.rs:36-55 | every op word the user library packs decodes, in the kernel, to the same opcode and the same three arguments |
| KernelSyscalls.Dispatch | kernel/src/syscall/syscalls.rs:61-86 | an undecodable word gives `INVALID_OP`; opcode 0 prints "Ping!" and gives `SYSCALL_OK`; opcode 1 gives `SYSCALL_ERR`; only opcode 127 hands over to the process executor |
| KernelSyscalls.DispatchIgnoresPtr | kernel/src/syscall/syscalls.rs:61-86 | the target pointer never changes the outcome |
| KernelSyscalls.TwoWordCallStatus | kernel/src/syscall/syscalls.rs:57-86 | through the r14/r15 trampoline and a handler that answers with `syscall_dispatch`, ping returns `SYSCALL_OK`, the keyboard request `SYSCALL_ERR` and an unknown opcode byte `INVALID_OP` |
| Uapi.ErrorCodeValue | kernel-uapi/src/syscall.rs:90-95 | the `#[repr(u32)]` value is 0 exactly for `Ok` and at most 1 |
| Uapi.FromResult | kernel-uapi/src/syscall.rs:48-55 | `SyscallResult::Ok` exactly for `Ok` |
| Uapi.ToResult | kernel-uapi/src/syscall.rs:56-63 | `Ok` exactly for `SyscallResult::Ok` |
| Uapi.ConversionsInverse | kernel-uapi/src/syscall.rs:48-63 | the two `From` conversions are mutual inverses |
| Uapi.RawSyscall | kernel-uapi/src/syscall.rs:4-16 | exactly one trap with the request, and the result slot holds the kernel's answer |
| Uapi.Call | kernel-uapi/src/syscall.rs:68-73 | one trap; on `Ok` the code is `Ok` and a present slot receives the wrapper's union field; on `Err` the kernel's code is returned and the slot is untouched |
| Uapi.SysPing | kernel-uapi/src/syscall.rs:81 | the `ping` wrapper: one `Ping` trap, the code and slot as for every wrapper |
| Uapi.SysPutChar | kernel-uapi/src/syscall.rs:82 | the `put_char` wrapper: one `PutChar(c)` trap |
| Uapi.SysGetKbdCode | kernel-uapi/src/syscall.rs:83 | the `get_kbd_code` wrapper: on `Ok` a present slot receives the kernel's byte |
| Uapi.SysSleepMs | kernel-uapi/src/syscall.rs:84 | the `sleep_ms` wrapper: one `SleepMs(duration)` trap |
| Uapi.SysExit | kernel-uapi/src/syscall.rs:87 | the `exit` wrapper: one `Exit(code)` trap |
| Uapi.PanicHandler | kernel-uapi/src/lib.rs:5-12 | exactly one trap, `Exit(-42)`, and no further trap however long the final loop spins |
| Uapi.Slot.Uninit | kernel-uapi/src/syscall.rs:68 | a `MaybeUninit` slot starts holding nothing |
| LibStd.AsI8 | libstd/src/lib.rs:16 | `main() as i8` keeps the value modulo 256, read as two's complement |
| LibStd.AsI8Properties | libstd/src/lib.rs:16 | the truncation is the identity on values that fit in an `i8`, and only the low byte matters |
| LibStd.ExitLoop | libstd/src/lib.rs:17-19 | after n turns of the exit loop, exactly n `Exit(code)` traps, whatever the kernel answers |
| LibStd.Start | libstd/src/lib.rs:14-20 | `_start` traps only with `Exit(main() as i8)`, once per turn |
| LibStd.Panic | libstd/src/lib.rs:7-12 | the panic handler traps only with `Exit(-1)`, once per turn |
| LibStd.Abort | libstd/src/lib.rs:32-38 | `process::abort` traps only with `Exit(0)`, once per turn |
| LibStd.LangStart | libstd/src/lib.rs:26-30 | `main` runs exactly once and the result is 0 whatever it returned |
| InitC.PutcharCalls | initrd/init.c:33-39 | the `putchar` requests for a byte string: one per byte, carrying that byte, in order |
| InitC.Print | initrd/init.c:33-39 | `print` appends exactly one `putchar` trap per byte of `s[0..len)`, in order, and leaves earlier traps alone |
| InitC.CRem10 | initrd/init.c:53 | C's `n % 10` on an `int`: within -9..9, the Euclidean remainder for `n >= 0`, non-positive and congruent for `n < 0` |
| InitC.CQuot10 | initrd/init.c:54 | C's `n /= 10` rounds toward zero: `n == 10 * (n / 10) + n % 10` with C's operators |
| InitC.Fill | initrd/init.c:44-58 | the first loop of `itoa` writes exactly `buflen` bytes |
| InitC.Produced | initrd/init.c:43-58 | `out_len` never exceeds `buflen` |
| InitC.ItoaBytes | initrd/init.c:41-68 | `itoa` leaves exactly `buflen` bytes defined: the reversed digit prefix then the NUL slots |
| InitC.FillSlots | initrd/init.c:43-58 | the first loop of `itoa` writes `Fill` into `buf[0..buflen)`, counts `Produced` digits and leaves the rest of `buf` alone |
| InitC.ReversePrefix | initrd/init.c:60-65 | the swap loop reverses `buf[0..out_len)` in place and leaves the other bytes alone |
| InitC.Itoa | initrd/init.c:41-68 | `itoa` returns `out_len` and leaves `ItoaBytes` in `buf[0..buflen)`, touching nothing past `buflen` |
| InitC.FillZero | initrd/init.c:47-50 | once the value reaches 0, every later slot is NUL and counts no digit |
| InitC.FillDecimal | initrd/init.c:44-58 | for `n >= 0` the first loop writes the decimal digits least significant first, as many as fit, then NULs |
| InitC.ItoaDecimal | initrd/init.c:41-68 | for `n >= 0`, `itoa` returns the number of digits that fit and the buffer holds the last digits of the decimal form of `n`, then NULs |
| InitC.ItoaFits | initrd/init.c:22-24 | with the 8-byte buffer of `_start` every count below 10^8 is printed as its full decimal form |
| InitC.DecimalLength | initrd/init.c:22-23 | a number below 10^k has at most k decimal digits |
| InitC.ItoaNegativeDigit | initrd/init.c:53 | a negative one-digit value gives one byte below '0' and no minus sign |
| InitC.Pings | initrd/init.c:12-15 | the first loop of `_start` issues exactly three `ping` requests |
| InitC.Round | initrd/init.c:22-27 | one turn of the `seconds` loop: the digits, the suffix with its NUL, then `sleep_ms(1000)`, in order |
| InitC.Start | initrd/init.c:10-31 | `_start` after `rounds` turns has issued three pings, the banner with its NUL, then the turns for 0, 1, … in order |
| InitC.DigitsPrintable | initrd/init.c:22-24 | every digit printed for a count below 10^8 is a byte the kernel's `putchar` accepts |
| InitC.TerminatorsRejected | initrd/init.c:17-18 | `sizeof` makes both strings end in NUL: all their other bytes are printable, the NUL is rejected by the kernel |
| Base.Decimal | initrd/init.c:41-56 | the decimal form of a number is at least one ASCII digit, with no leading zero |
| Base.DecimalRoundTrip | initrd/init.c:41-56 | the decimal form of a number reads back as that number |
| InitRs.PutChars | init/src/main.rs:25-27 | one `PutChar` request per byte of the string, in order |
| InitRs.WriteStr | init/src/main.rs:23-30 | `Printer::write_str` issues exactly one `put_char` per byte, in order, ignores their errors and returns `Ok(())` |
| InitRs.Pings | init/src/main.rs:9-11 | the ping loop issues exactly n `Ping` requests |
| InitRs.CounterRound | init/src/main.rs:16-17 | one counter turn: the decimal seconds and " seconds\n" byte by byte, then one `SleepMs(1000)` |
| InitRs.Counter | init/src/main.rs:15-18 | the counter loop issues exactly the requests of its rounds, in order |
| InitRs.RunMain | init/src/main.rs:8-19 | `main`'s whole trace: three pings, the banner byte by byte, then six rounds for 0..=5 seconds |
| LibcString.Memcpy | libc/string/memcpy.c:3-12 | for non-overlapping ranges, `dst[0..len)` becomes the old `src[0..len)`, every other byte is unchanged, and `dst` is returned |
| LibcString.Memmove | libc/string/memmove.c:3-22 | even for overlapping ranges, `dst[0..len)` becomes the old `src[0..len)` and nothing else changes; the writes go upwards when `dst < src` and downwards otherwise |
| LibcString.Compare | libc/string/memcmp.c:3-20 | defines the answer of `memcmp`, the first differing byte compared unsigned; `CompareMeaning` states its sign and `Memcmp` is proved against it |
| LibcString.CompareMeaning | libc/string/memcmp.c:3-20 | the comparison is -1, 0 or 1; 0 exactly for equal strings; otherwise the sign of the first differing byte compared unsigned; swapping the arguments negates it |
| LibcString.Memcmp | libc/string/memcmp.c:3-20 | `memcmp` returns the comparison of `a[0..len)` with `b[0..len)` and writes nothing |
| LibcString.Memset | libc/string/memset.c:3-11 | each byte of `ptr[0..len)` becomes `(unsigned char)v`, that is `v` modulo 256, nothing else changes, and `ptr` is returned |
| BuddyBitmaps.LayerLenShift | kernel/src/arch/x86_64/memory/frame_allocator/buddy.rs:265 | the `len >>= 1` step: each layer length is half the one below, down to zero past the top |
| BuddyBitmaps.SetSame | kernel/src/arch/x86_64/memory/frame_allocator/buddy.rs:319 | writing a bit's own value back changes nothing |
| BuddyBitmaps.BuddyBitmap.Bits | kernel/src/arch/x86_64/memory/frame_allocator/buddy.rs:213-214 | the storage holds exactly 2^n - 1 bits |
| BuddyBitmaps.BuddyBitmap.New | kernel/src/arch/x86_64/memory/frame_allocator/buddy.rs:237-249 | `new` panics, writing nothing, exactly when the storage is not 2^n - 1 bits long; otherwise every bit is marked used |
| BuddyBitmaps.BuddyBitmap.LayerRange | kernel/src/arch/x86_64/memory/frame_allocator/buddy.rs:259-268 | the loop of `layer_range` ends with the range of the layer in the storage, inside the storage |
| BuddyBitmaps.BuddyBitmap.GetBit | kernel/src/arch/x86_64/memory/frame_allocator/buddy.rs:270-273 | reads bit `j` of the layer through `get_layer` |
| BuddyBitmaps.BuddyBitmap.ReplaceBit | kernel/src/arch/x86_64/memory/frame_allocator/buddy.rs:319 | `replace` stores the new value at bit `j` of the layer, changes nothing else and returns the old value |
| BuddyBitmaps.BuddyBitmap.FirstZero | kernel/src/arch/x86_64/memory/frame_allocator/buddy.rs:286 | `first_zero` over bits `s..e` of a layer returns the lowest free bit there, or none |
| BuddyBitmaps.BuddyBitmap.AllocBit | kernel/src/arch/x86_64/memory/frame_allocator/buddy.rs:354-376 | `alloc_bit` in place returns the result and leaves the storage that `AllocBitSpec` gives for the old storage |
| BuddyBitmaps.BuddyBitmap.DeallocBit | kernel/src/arch/x86_64/memory/frame_allocator/buddy.rs:314-351 | `dealloc_bit` in place returns the result and leaves the storage that `DeallocBitSpec` gives |
| BuddyBitmaps.BuddyBitmap.FreeStartEdge | kernel/src/arch/x86_64/memory/frame_allocator/buddy.rs:292-297 | freeing the unpaired start bit in place matches `StartEdge` |
| BuddyBitmaps.BuddyBitmap.FreeEndEdge | kernel/src/arch/x86_64/memory/frame_allocator/buddy.rs:298-303 | freeing the unpaired end bit in place matches `EndEdge` |
| BuddyBitmaps.BuddyBitmap.DeallocRange | kernel/src/arch/x86_64/memory/frame_allocator/buddy.rs:280-311 | `dealloc_range` in place panics when `DeallocRangeSpec` does; otherwise it returns that result and leaves that storage |
| BuddyBitmaps.BuddyBitmap.AllocRange | kernel/src/arch/x86_64/memory/frame_allocator/buddy.rs:379-396 | `alloc_range` in place panics when `AllocRangeSpec` does; otherwise it returns that result and leaves that storage |
| BuddyBitmaps.BuddyBitmap.Trim | kernel/src/arch/x86_64/memory/frame_allocator/buddy.rs:391-394 | the tail of `alloc_range` in place matches `TrimSurplus` |
| BuddyBitmaps.BuddyBitmap.Wrap | kernel/src/arch/x86_64/memory/frame_allocator/buddy.rs:206-215 | a bitmap over storage of exactly 2^n - 1 bits, with at least one layer, holds its fields and is well formed |
| BuddyLayout.Pow2 | kernel/src/arch/x86_64/memory/frame_allocator/buddy.rs:238 | `1 << k` is at least 1 |
| BuddyLayout.BytesRequired | kernel/src/arch/x86_64/memory/frame_allocator/buddy.rs:255-257 | `bytes_required_for_n_layers` gives the fewest whole bytes that hold the 2^n - 1 bits |
| BuddyLayout.LayerHalves | kernel/src/arch/x86_64/memory/frame_allocator/buddy.rs:207-208 | below the top, each layer has twice the bits of the layer above it |
| BuddyLayout.LayerStartClosed | kernel/src/arch/x86_64/memory/frame_allocator/buddy.rs:259-268 | the layer `l` that `layer_range` finds starts at 2^n - 2^(n-l) |
| BuddyLayout.LayerStartBeyond | kernel/src/arch/x86_64/memory/frame_allocator/buddy.rs:210-213 | past the top layer the start sits at the end of the 2^n - 1 bits |
| BuddyLayout.LayerInBounds | kernel/src/arch/x86_64/memory/frame_allocator/buddy.rs:210-213 | every layer lies inside the 2^n - 1 bits of storage |
| BuddyLayout.LayersOrdered | kernel/src/arch/x86_64/memory/frame_allocator/buddy.rs:210-211 | the layers are placed from low to high and do not overlap |
| BuddyLayout.FiveLayers | kernel/src/arch/x86_64/memory/frame_allocator/buddy.rs:405-416 | a five-layer bitmap has the layer ranges 0..16, 16..24, 24..28, 28..30 and 30..31 in 31 bits |
| BuddyLayout.Set | kernel/src/arch/x86_64/memory/frame_allocator/buddy.rs:275-278 | writing a bit through `get_layer_mut` keeps the storage length |
| BuddyLayout.GetSet | kernel/src/arch/x86_64/memory/frame_allocator/buddy.rs:270-278 | writing bit `j` of layer `l` changes that bit and no other bit of any layer |
| BuddyLayout.FirstZeroFrom | kernel/src/arch/x86_64/memory/frame_allocator/buddy.rs:286 | `first_zero` over a range finds the lowest free bit there, and none exactly when every bit there is used |
| BuddyLayout.FreeUnitsSet | kernel/src/arch/x86_64/memory/frame_allocator/buddy.rs:93-94 | freeing a used bit of layer `l` adds 2^l pages of free capacity; using a free one takes them away |
| BuddyLayout.AvailableDescUsed | kernel/src/arch/x86_64/memory/frame_allocator/buddy.rs:207-212 | while no free block lies inside a free block, everything below an available block is marked used |
| BuddyLayout.FreeNotCovered | kernel/src/arch/x86_64/memory/frame_allocator/buddy.rs:207-212 | while no free block lies inside a free block, a free bit has no free ancestor |
| BuddyLayout.UsePreservesInv | kernel/src/arch/x86_64/memory/frame_allocator/buddy.rs:360 | marking any bit used keeps the rule that no free block lies inside a free block |
| BuddyLayout.FreePreservesInv | kernel/src/arch/x86_64/memory/frame_allocator/buddy.rs:339 | freeing a block with no free ancestor and nothing free below it keeps that rule |
| BuddyOps.AllocBitSpec | kernel/src/arch/x86_64/memory/frame_allocator/buddy.rs:354-376 | `alloc_bit` keeps the storage length and any index it returns lies inside the requested layer |
| BuddyOps.DeallocBitSpec | kernel/src/arch/x86_64/memory/frame_allocator/buddy.rs:314-351 | `dealloc_bit` keeps the storage length |
| BuddyOps.DeallocRangeSpec | kernel/src/arch/x86_64/memory/frame_allocator/buddy.rs:280-311 | `dealloc_range` keeps the storage length whenever it returns |
| BuddyOps.StartEdge | kernel/src/arch/x86_64/memory/frame_allocator/buddy.rs:292-297 | freeing the unpaired start bit keeps the storage length |
| BuddyOps.EndEdge | kernel/src/arch/x86_64/memory/frame_allocator/buddy.rs:298-303 | freeing the unpaired end bit keeps the storage length |
| BuddyOps.AllocRangeSpec | kernel/src/arch/x86_64/memory/frame_allocator/buddy.rs:379-396 | `alloc_range` keeps the storage length whenever it returns |
| BuddyOps.TrimSurplus | kernel/src/arch/x86_64/memory/frame_allocator/buddy.rs:389-394 | the tail of `alloc_range` keeps the storage length whenever it returns |
| BuddyOps.DeallocRangeStep | kernel/src/arch/x86_64/memory/frame_allocator/buddy.rs:305-310 | once the range is all used and both edges are freed, `dealloc_range` recurses on the parent range one layer up when that range is not empty, and returns `Ok` otherwise |
| BuddyOps.AllocRangeStep | kernel/src/arch/x86_64/memory/frame_allocator/buddy.rs:389-394 | for two or more blocks, `alloc_range` trims the ceil(len/2) parents it got one layer up, or passes their error on unchanged |
| BuddyOps.AllocBitOutcome | kernel/src/arch/x86_64/memory/frame_allocator/buddy.rs:354-376 | `alloc_bit` succeeds exactly when some layer at or above the requested one has a free bit; the returned bit is then used and the lower layers are untouched; on failure nothing changes and the error is `OutOfMemory` of the requested layer (`LayerDoesNotExist` past the top) |
| BuddyOps.SetBack | kernel/src/arch/x86_64/memory/frame_allocator/buddy.rs:339-344 | clearing a used bit and setting it again, as the merge does, gives the storage back |
| BuddyOps.DeallocBitRefusals | kernel/src/arch/x86_64/memory/frame_allocator/buddy.rs:314-341 | a free bit is refused with `DoubleFree` and nothing changes; past the top layer the pair slice is out of range; the top layer acts on its bit 0 whatever index it is given |
| BuddyOps.DeallocBitAccounting | kernel/src/arch/x86_64/memory/frame_allocator/buddy.rs:313-351 | a successful `dealloc_bit` adds 2^layer pages of free capacity, whatever merging happens on the way up |
| BuddyOps.DeallocRangePanics | kernel/src/arch/x86_64/memory/frame_allocator/buddy.rs:280-285 | `dealloc_range` panics exactly when the range does not fit inside an existing layer |
| BuddyOps.DeallocRangeRefusesFree | kernel/src/arch/x86_64/memory/frame_allocator/buddy.rs:285-288 | a range holding a free bit is refused with `DoubleFree` at or before that bit's offset, and nothing changes |
| BuddyOps.DeallocRangeAccounting | kernel/src/arch/x86_64/memory/frame_allocator/buddy.rs:280-311 | a successful `dealloc_range(s..e)` adds e - s blocks of its layer to the free capacity (plus two for an empty range at an odd index) |
| BuddyOps.EdgeAccounting | kernel/src/arch/x86_64/memory/frame_allocator/buddy.rs:292-303 | each unpaired edge freed on its own adds one block of the layer |
| BuddyOps.EdgeWidth | kernel/src/arch/x86_64/memory/frame_allocator/buddy.rs:292-305 | a range is its unpaired edges plus twice its parent range; when the parent range is empty, only the edges are left |
| BuddyOps.EmptyEvenRange | kernel/src/arch/x86_64/memory/frame_allocator/buddy.rs:292-310 | an empty range at an even index frees nothing and succeeds |
| BuddyOps.AllocRangeShape | kernel/src/arch/x86_64/memory/frame_allocator/buddy.rs:379-396 | `alloc_range` never panics; on success it returns `len` consecutive blocks inside the layer; a zero length changes nothing |
| BuddyOps.TrimShape | kernel/src/arch/x86_64/memory/frame_allocator/buddy.rs:391-394 | the surplus `alloc_range` frees lies inside the layer, so trimming never panics and keeps `len` blocks |
| BuddyOps.LayerLenScale | kernel/src/arch/x86_64/memory/frame_allocator/buddy.rs:207-208 | a layer holds 2^k times the blocks of the layer k above it |
| BuddyOps.AllocRangePow2 | kernel/src/arch/x86_64/memory/frame_allocator/buddy.rs:156-165 | a request for 2^k blocks (the 2 MiB and 1 GiB frames) is one `alloc_bit` k layers up: the aligned run of 2^k blocks below it, with the same storage and error |
| BuddyOps.TrimPow2 | kernel/src/arch/x86_64/memory/frame_allocator/buddy.rs:391-393 | trimming the halves of a single parent block to 2^k blocks keeps all of them and frees nothing |
| BuddyDiscipline.AllocBitKeepsInv | kernel/src/arch/x86_64/memory/frame_allocator/buddy.rs:353-376 | `alloc_bit` keeps the rule that no free block lies inside a free block; the block it returns was available and is now allocated (used, with nothing free above or below it), and the free capacity shrinks by exactly its 2^layer pages |
| BuddyDiscipline.TakeKeepsInv | kernel/src/arch/x86_64/memory/frame_allocator/buddy.rs:359-361 | taking the first free bit of the layer keeps the rule, allocates that block and removes 2^layer pages of capacity |
| BuddyDiscipline.SplitKeepsInv | kernel/src/arch/x86_64/memory/frame_allocator/buddy.rs:368-372 | splitting a parent just allocated one layer up, by freeing its right half, keeps the rule and allocates its left half |
| BuddyDiscipline.DeallocBitKeepsInv | kernel/src/arch/x86_64/memory/frame_allocator/buddy.rs:313-351 | `dealloc_bit` of an allocated block succeeds, keeps the rule, makes the block available (free, or inside the merged free block) and leaves the lower layers alone |
| BuddyDiscipline.MergeReady | kernel/src/arch/x86_64/memory/frame_allocator/buddy.rs:342-347 | when the buddy of an allocated block is free, marking both used leaves the parent allocated one layer up, ready to be freed there |
| BuddyDiscipline.FreeAlone | kernel/src/arch/x86_64/memory/frame_allocator/buddy.rs:339-350 | a block whose buddy is used (or the top block) is freed without merging, keeping the rule and changing only that bit |
| BuddyDiscipline.EdgesFresh | kernel/src/arch/x86_64/memory/frame_allocator/buddy.rs:292-303 | on fresh storage both edge calls of `dealloc_range` succeed and free exactly the unpaired edge bits, keeping the rule |
| BuddyDiscipline.DeallocRangeFresh | kernel/src/arch/x86_64/memory/frame_allocator/buddy.rs:280-311 | `dealloc_range(s..e)` on fresh storage (the layer and those above it used) succeeds, keeps the rule, leaves lower layers alone and makes exactly the blocks of `s..e` available at that layer |
| BuddyDiscipline.MiddleFresh | kernel/src/arch/x86_64/memory/frame_allocator/buddy.rs:305-307 | the same, for a range whose paired middle is freed as parents one layer up |
| BuddyDiscipline.EdgesOnlyFresh | kernel/src/arch/x86_64/memory/frame_allocator/buddy.rs:305-310 | the same, for a range made only of its unpaired edges |
| BuddyExhaustion.TopOnly | kernel/src/arch/x86_64/memory/frame_allocator/buddy.rs:426-427 | the test's start state (all bits used, then the top bit freed) fills the 2^n - 1 bits |
| BuddyExhaustion.AllocMany | kernel/src/arch/x86_64/memory/frame_allocator/buddy.rs:432-437 | `count` calls of `alloc_bit` in a row give `count` results and keep the storage length |
| BuddyExhaustion.ZerosPositive | kernel/src/arch/x86_64/memory/frame_allocator/buddy.rs:286 | a layer prefix counts a free bit exactly when it holds one |
| BuddyExhaustion.FreeFromPositive | kernel/src/arch/x86_64/memory/frame_allocator/buddy.rs:93-94 | the free capacity of a group of layers is positive exactly when one of them has a free bit |
| BuddyExhaustion.AllocBitWhenFree | kernel/src/arch/x86_64/memory/frame_allocator/buddy.rs:354-376 | with nothing free below the layer, `alloc_bit` succeeds exactly when at least one page is free |
| BuddyExhaustion.AllocManySucceeds | kernel/src/arch/x86_64/memory/frame_allocator/buddy.rs:429-437 | with room for `count` blocks of the layer, `count` calls of `alloc_bit` all succeed, keep the rule and use exactly `count` blocks' worth of pages |
| BuddyExhaustion.AllUsedEmpty | kernel/src/arch/x86_64/memory/frame_allocator/buddy.rs:244 | a storage filled with `true` has no free capacity |
| BuddyExhaustion.TopOnlyState | kernel/src/arch/x86_64/memory/frame_allocator/buddy.rs:426-427 | the test's start state keeps the rule, has nothing free below the top and holds 2^(n-1) pages |
| BuddyExhaustion.Pow2Add | kernel/src/arch/x86_64/memory/frame_allocator/buddy.rs:430 | 2^a * 2^b is 2^(a+b) |
| BuddyExhaustion.TopOnlyYield | kernel/src/arch/x86_64/memory/frame_allocator/buddy.rs:419-437 | from the test's start state, 2^(n-1-L) calls of `alloc_bit(L)` all succeed and one more reports `OutOfMemory { layer: L }`, for any number of layers |
| BuddyExhaustion.AllocStep | kernel/src/arch/x86_64/memory/frame_allocator/buddy.rs:354-376 | in the state where blocks `0..c` of layer L are taken (and each layer above holds exactly its carried-up free bit), `alloc_bit(L)` returns `Ok(c)`, moves to the state with `0..c+1` taken, and leaves the layers below L alone |
| BuddyExhaustion.DeallocStep | kernel/src/arch/x86_64/memory/frame_allocator/buddy.rs:314-351 | in the state where blocks `0..c` of layer L have been given back in order, `dealloc_bit(c, L)` returns `Ok(())`, moves to the state with `0..c+1` given back, and leaves the layers below L alone |
| BuddyExhaustion.DeallocMany | kernel/src/arch/x86_64/memory/frame_allocator/buddy.rs:439-443 | the deallocation loop gives one result per index and keeps the storage length |
| BuddyExhaustion.Indices | kernel/src/arch/x86_64/memory/frame_allocator/buddy.rs:439 | the blocks drained from `alloced_blocks` are `0, 1, .., k - 1`, in order |
| BuddyExhaustion.OkIndices | kernel/src/arch/x86_64/memory/frame_allocator/buddy.rs:432-437 | the results pushed are `Ok(0), .., Ok(k - 1)`, in order |
| BuddyExhaustion.CarryZero | kernel/src/arch/x86_64/memory/frame_allocator/buddy.rs:354-376 | halving a count of zero blocks up the layers stays zero |
| BuddyExhaustion.CarryLayerLen | kernel/src/arch/x86_64/memory/frame_allocator/buddy.rs:354-376 | halving a whole layer up the layers gives the whole higher layer |
| BuddyExhaustion.TopOnlyFree | kernel/src/arch/x86_64/memory/frame_allocator/buddy.rs:426-427 | the test's start state is the allocation state with nothing taken on any layer below the top, and has no free bit below that layer |
| BuddyExhaustion.AllAllocated | kernel/src/arch/x86_64/memory/frame_allocator/buddy.rs:432-443 | once every block of the layer is taken, the state is the deallocation state with nothing given back |
| BuddyExhaustion.AllFreed | kernel/src/arch/x86_64/memory/frame_allocator/buddy.rs:439-443 | once every block of the layer is given back, in order, the storage is exactly the test's start state again |
| BuddyExhaustion.SameBits | kernel/src/arch/x86_64/memory/frame_allocator/buddy.rs:259-278 | two storages that agree on every bit of every layer are equal |
| BuddyExhaustion.Locate | kernel/src/arch/x86_64/memory/frame_allocator/buddy.rs:259-268 | every bit position at or above a layer's start lies in exactly one layer at some index |
| BuddyExhaustion.AllocRound | kernel/src/arch/x86_64/memory/frame_allocator/buddy.rs:429-437 | from the test's start state, `k` calls of `alloc_bit(L)` return `Ok(0), .., Ok(k - 1)` in order |
| BuddyExhaustion.DeallocRound | kernel/src/arch/x86_64/memory/frame_allocator/buddy.rs:439-443 | giving back blocks `0..k` of the layer in order succeeds every time |
| BuddyExhaustion.TopOnlyRound | kernel/src/arch/x86_64/memory/frame_allocator/buddy.rs:419-445 | one round of `bbm_alloc_dealloc` for any layer L: from the start state the 2^(n-1-L) allocations return `Ok(0), Ok(1), ..` in order, one more reports `OutOfMemory { layer: L }`, every deallocation in order returns `Ok(())`, and the storage ends exactly in the start state, so the next layer's round starts from it too |
| BuddyRegion.Log2Ceil | kernel/src/arch/x86_64/memory/frame_allocator/buddy.rs:114 | `p.next_power_of_two().ilog2()` is the least k with 2^k >= p |
| BuddyRegion.Pages | kernel/src/arch/x86_64/memory/frame_allocator/buddy.rs:112 | the page count covers the region, a partial last page counted whole, with less than one page to spare |
| BuddyRegion.RegionLayers | kernel/src/arch/x86_64/memory/frame_allocator/buddy.rs:113-114 | the bitmap has at least one layer and a layer-0 bit for every page of the region |
| BuddyRegion.NewAsWritten | kernel/src/arch/x86_64/memory/frame_allocator/buddy.rs:107-132 | `BuddyAllocator::new` as written frees the layer-0 range `bitmap_pages..bitmap_len`; when it returns, the bitmap has the region's layer count and size |
| BuddyRegion.NewRegion | kernel/src/arch/x86_64/memory/frame_allocator/buddy.rs:107-132 | the intended constructor frees every page after the bitmap's own pages; when it returns, the bitmap has the region's layer count and size |
| BuddyRegion.AllUsedFacts | kernel/src/arch/x86_64/memory/frame_allocator/buddy.rs:233-244 | the bitmap `new` fills with `true` keeps the rule that no free block lies inside a free block and has no free capacity |
| BuddyRegion.NewRegionSound | kernel/src/arch/x86_64/memory/frame_allocator/buddy.rs:107-132 | the intended constructor never panics, keeps that rule, makes exactly the pages after the bitmap available, and sets `remaining` to the free capacity in bytes |
| BuddyRegion.NewAsWrittenOnePage | kernel/src/arch/x86_64/memory/frame_allocator/buddy.rs:123-124 | as written, a region of at most one page makes `new` panic: the range `1..1` frees the top bit twice and the `DoubleFree` is unwrapped |
| BuddyRegion.NewAsWrittenTwoPages | kernel/src/arch/x86_64/memory/frame_allocator/buddy.rs:123-129 | as written, in a two-page region page 0, which holds the bitmap, becomes available, and `remaining` is the size less one byte |
| BuddyRegion.NewAsWrittenStrandsPages | kernel/src/arch/x86_64/memory/frame_allocator/buddy.rs:115-124 | as written, in a 1000-page region only pages 1..256 are freed, so page 999 is never handed out; the intended constructor makes it available |
| BuddyRegion.ThousandPages | kernel/src/arch/x86_64/memory/frame_allocator/buddy.rs:112-123 | a 1000-page region has an 11-layer bitmap of 256 bytes in one page, with 1024 layer-0 bits |
| BuddyRegion.AllocRangeTooBig | kernel/src/arch/x86_64/memory/frame_allocator/buddy.rs:379-382 | a request of 2^k blocks that no layer is large enough for fails and changes nothing |
| BuddyRegion.FrameAlloc | kernel/src/arch/x86_64/memory/frame_allocator/buddy.rs:145-170 | `alloc_range(2^k, 0)` for a 4 KiB, 2 MiB or 1 GiB frame never panics and keeps the rule; a returned frame is aligned to its own size, was available and is now allocated as one block of layer k, and the capacity falls by 2^k pages; a failure changes nothing |
| BuddyRegion.FrameDealloc | kernel/src/arch/x86_64/memory/frame_allocator/buddy.rs:172-203 | giving back an allocated block of layer k succeeds, keeps the rule, makes it available and adds 2^k pages of capacity |
| BuddyRegion.ContainsFrameBounds | kernel/src/arch/x86_64/memory/frame_allocator/buddy.rs:134-142 | because `end` must lie inside the half-open region, a frame ending exactly at the region's end is not contained; a contained frame passes both assertions of `deallocate_frame` |
| BuddyRegion.FrameStep | kernel/src/arch/x86_64/memory/frame_allocator/buddy.rs:145-170 | an allocation keeps the region and the layer count |
| BuddyRegion.TakeFrame | kernel/src/arch/x86_64/memory/frame_allocator/buddy.rs:147-150 | the tail of `allocate_frame` keeps the region and the layer count |
| BuddyRegion.DeallocStep | kernel/src/arch/x86_64/memory/frame_allocator/buddy.rs:172-203 | a deallocation keeps the region and the layer count |
| BuddyRegion.GiveBack | kernel/src/arch/x86_64/memory/frame_allocator/buddy.rs:178-179 | the unwrap and the `remaining +=` of `deallocate_frame` keep the region |
| BuddyRegion.FrameStepSound | kernel/src/arch/x86_64/memory/frame_allocator/buddy.rs:145-170 | `allocate_frame` keeps the allocator consistent; a returned frame is aligned to its size relative to the region start, its block was available and is now allocated, and `remaining` falls by the frame size; `None` changes nothing; in an aligned region it never panics |
| BuddyRegion.TakeFrameSound | kernel/src/arch/x86_64/memory/frame_allocator/buddy.rs:147-150 | the address arithmetic and `remaining -=` after a successful `alloc_range` give those promises |
| BuddyRegion.FrameAddress | kernel/src/arch/x86_64/memory/frame_allocator/buddy.rs:148 | `phys_start + idx.start * 4096` for an index that is a multiple of 2^k is a whole number of frames past the region start |
| BuddyRegion.DeallocStepSound | kernel/src/arch/x86_64/memory/frame_allocator/buddy.rs:172-203 | `deallocate_frame` panics for a start outside the region and for a block that is already free, in both cases changing nothing; giving back an allocated block succeeds, keeps the allocator consistent, makes the block available and raises `remaining` by the frame size |
| BuddyRegion.GiveBackSound | kernel/src/arch/x86_64/memory/frame_allocator/buddy.rs:178-179 | an `Err` from `dealloc_bit` panics with nothing changed; an `Ok` adds the frame size to `remaining` and keeps it equal to the free capacity |
| BuddyRegion.AllocFreeRoundTrip | kernel/src/arch/x86_64/memory/frame_allocator/buddy.rs:145-203 | giving back a frame just allocated (aligned region, frame inside it) succeeds and restores `remaining` |
| BuddyManager.TotalUpdate | kernel/src/arch/x86_64/memory/frame_allocator/buddy.rs:17-19 | replacing one table slot changes the sum of the counts by the change of that slot's count |
| BuddyManager.TotalAtLeast | kernel/src/arch/x86_64/memory/frame_allocator/buddy.rs:17-19 | with consistent allocators the sum is at least the count of any one of them, which is non-negative |
| BuddyManager.TotalNonNegative | kernel/src/arch/x86_64/memory/frame_allocator/buddy.rs:17-19 | with consistent allocators the sum of the counts is non-negative |
| BuddyManager.ManagerAlloc | kernel/src/arch/x86_64/memory/frame_allocator/buddy.rs:58-66 | defines the manager's `allocate_frame`: the loop over the table, then `remaining -= frame.size()`, which panics below zero; `ManagerAllocSound` states its outcome |
| BuddyManager.DeallocAsWritten | kernel/src/arch/x86_64/memory/frame_allocator/buddy.rs:73-81 | defines `deallocate_frame` as written, whose loop never returns; `DeallocAsWrittenPanics` states that it always panics |
| BuddyManager.AllocFrom | kernel/src/arch/x86_64/memory/frame_allocator/buddy.rs:59-65 | the loop of `allocate_frame` keeps the table's length and the shape of every bitmap |
| BuddyManager.AllocFromSound | kernel/src/arch/x86_64/memory/frame_allocator/buddy.rs:58-66 | the allocators are tried in table order: `None` means each had no frame and nothing changed; a frame comes from the first that had one, exactly as it hands it out, and only it changes; the sum falls by the frame size; every allocator stays consistent; aligned regions never panic |
| BuddyManager.AllocPass | kernel/src/arch/x86_64/memory/frame_allocator/buddy.rs:60 | an allocator with no frame is left as it was and the loop moves on |
| BuddyManager.AllocHere | kernel/src/arch/x86_64/memory/frame_allocator/buddy.rs:60-62 | an allocator that hands out a frame, or panics, ends the loop |
| BuddyManager.AllocSkip | kernel/src/arch/x86_64/memory/frame_allocator/buddy.rs:59 | an empty slot, or an allocator with no frame, passes the loop on to the next slot |
| BuddyManager.ServedEarlier | kernel/src/arch/x86_64/memory/frame_allocator/buddy.rs:59-63 | an allocator with no frame in front of the one that served leaves it the first that served |
| BuddyManager.ManagerAllocSound | kernel/src/arch/x86_64/memory/frame_allocator/buddy.rs:58-66 | while the manager's count is the sum of its consistent allocators', `self.remaining -= frame.size()` never underflows and the count stays that sum; `None` changes nothing |
| BuddyManager.DeallocAsWrittenPanics | kernel/src/arch/x86_64/memory/frame_allocator/buddy.rs:73-81 | as written, the loop never returns, so every deallocation through the manager reaches the `panic!`, even one that its allocator accepted |
| BuddyManager.DeallocFrom | kernel/src/arch/x86_64/memory/frame_allocator/buddy.rs:73-81 | the intended deallocation loop keeps the table's length and the shape of every bitmap |
| BuddyManager.FirstContaining | kernel/src/arch/x86_64/memory/frame_allocator/buddy.rs:74-75 | the first allocator whose region contains the frame is present and does contain it |
| BuddyRegion.Quot | kernel/src/arch/x86_64/memory/frame_allocator/buddy.rs:177 | the block index is the byte offset divided by the frame size |
| BuddyManager.DeallocFromSound | kernel/src/arch/x86_64/memory/frame_allocator/buddy.rs:73-81 | intended: a frame no region contains panics with nothing changed; otherwise only the first allocator that contains it acts, the count rises by the frame size exactly when it accepts it, and a frame it had handed out is accepted, keeping every allocator consistent and the count their sum |
| BuddyManager.DeallocAccepted | kernel/src/arch/x86_64/memory/frame_allocator/buddy.rs:75-77 | an allocator given back a frame it handed out accepts it, stays consistent and raises its count by the frame size |
| BuddyManager.Created | kernel/src/arch/x86_64/memory/frame_allocator/buddy.rs:35-39 | corrected: defines `BuddyAllocator::new` for one region in its intended form; `CreatedSound` states its accounting |
| BuddyManager.FromMmapSpec | kernel/src/arch/x86_64/memory/frame_allocator/buddy.rs:23-47 | corrected: defines `from_mmap` on a table of `n` slots, panicking when more regions are available than slots; `FromMmapSound` states its outcome |
| BuddyManager.CreatedSound | kernel/src/arch/x86_64/memory/frame_allocator/buddy.rs:35-39 | corrected: a new allocator is consistent, lies at its region, and makes available exactly the region's pages after its own bitmap |
| BuddyManager.FromMmapSound | kernel/src/arch/x86_64/memory/frame_allocator/buddy.rs:23-47 | corrected: `from_mmap` returns exactly when the available regions fit in the table; then every allocator is consistent and `remaining` is the sum of their counts |
| BuddyManager.AllocatorsSound | kernel/src/arch/x86_64/memory/frame_allocator/buddy.rs:30-44 | corrected: every allocator created from the map is consistent |
| BuddyManager.TotalEmpty | kernel/src/arch/x86_64/memory/frame_allocator/buddy.rs:27-29 | a table of empty slots counts nothing |
| BuddyManager.PaddedPush | kernel/src/arch/x86_64/memory/frame_allocator/buddy.rs:41-43 | `entries[i] = Some(e); remaining += e.remaining` puts the allocator in the next empty slot and adds its count |
| BuddyManager.BuddyAllocatorManager.FromMmap | kernel/src/arch/x86_64/memory/frame_allocator/buddy.rs:23-47 | corrected: the loop of `from_mmap` panics exactly when `FromMmapSpec` does, and otherwise builds its table and count |
| BuddyManager.BuddyAllocatorManager.AllocateFrame | kernel/src/arch/x86_64/memory/frame_allocator/buddy.rs:58-66 | `allocate_frame` leaves the result, count and table that `ManagerAlloc` gives |
| BuddyManager.BuddyAllocatorManager.DeallocateFrame | kernel/src/arch/x86_64/memory/frame_allocator/buddy.rs:73-81 | the intended `deallocate_frame` leaves the result, count and table that `DeallocFrom` gives |
| BuddyManager.AllocatorsStep | kernel/src/arch/x86_64/memory/frame_allocator/buddy.rs:31-34 | one more region of the map adds one allocator when it is `Available` and none otherwise |
| BuddyManager.AllocatorsGrow | kernel/src/arch/x86_64/memory/frame_allocator/buddy.rs:42 | a prefix of the map yields no more allocators than the whole map |
| BuddyManager.BuddyAllocatorManager.Make | kernel/src/arch/x86_64/memory/frame_allocator/buddy.rs:16-20 | the manager holds the free byte count and the table it is given |
| BootFrames.FromMmap | kernel/src/arch/x86_64/memory/frame_allocator.rs:24-25 | each map entry becomes the address range `start..start + len`, usable exactly when its kind is `Available`, in map order |
| BootFrames.AlignDown | kernel/src/arch/x86_64/memory/frame_allocator.rs:28 | `PhysFrame::containing_address` gives the 4 KiB-aligned start of the frame holding the address |
| BootFrames.StepsCount | kernel/src/arch/x86_64/memory/frame_allocator.rs:26 | `step_by(4096)` over a range takes one step for each started 4 KiB of the range |
| BootFrames.StepsInRange | kernel/src/arch/x86_64/memory/frame_allocator.rs:26-28 | every frame of a range is aligned, at or after the frame holding its first byte, and starts before the range ends |
| BootFrames.UsableFramesCount | kernel/src/arch/x86_64/memory/frame_allocator.rs:22-29 | `usable_frames` yields as many frames as the usable regions have 4 KiB steps |
| BootFrames.UsableFramesSound | kernel/src/arch/x86_64/memory/frame_allocator.rs:22-29 | every frame `usable_frames` yields is 4 KiB aligned and lies in a usable region |
| BootFrames.UsableFramesAppend | kernel/src/arch/x86_64/memory/frame_allocator.rs:26 | `flat_map` over a map made of two parts yields the frames of the first part, then those of the second |
| BootFrames.UnusableIgnored | kernel/src/arch/x86_64/memory/frame_allocator.rs:24 | a region that is not `Available` contributes no frame, wherever it sits in the map |
| BootFrames.BootInfoFrameAllocator.Init | kernel/src/arch/x86_64/memory/frame_allocator.rs:11-16 | `init` keeps the map and starts with nothing handed out |
| BootFrames.BootInfoFrameAllocator.FreePages | kernel/src/arch/x86_64/memory/frame_allocator.rs:18-20 | `free_pages` counts all usable frames, whatever has been handed out |
| BootFrames.BootInfoFrameAllocator.AllocateFrame | kernel/src/arch/x86_64/memory/frame_allocator.rs:32-38 | `allocate_frame` returns the `next`-th usable frame (aligned) or `None` past the end, and increments `next` either way |
| BootFrames.PhysToVirt | kernel/src/memory.rs:71-75 | `phys_to_virt` returns exactly when `phys + PHYS_MEM_OFFSET` does not overflow a `u64` and lies below 2^48 or in the upper half; the result is canonical and agrees with the sum in its low 48 bits |
| BootFrames.PhysToVirtHalves | kernel/src/memory.rs:71-75 | physical addresses below 2^46 map to `phys + 2^46` in the lower half; the next 2^47 bytes map sign-extended into the upper half; beyond them `VirtAddr::new` panics until the sum reaches the upper half |
| BootFrames.VirtAddrNew | kernel/src/process/exec.rs:52 | `VirtAddr::new` returns exactly for an address below 2^48 or in the upper half; the result is canonical and agrees in its low 48 bits, a canonical address is kept, and any other address panics with the crate's message |
| BootFrames.PhysToVirtSignExtends | kernel/src/memory.rs:71-75 | `phys_to_virt(0x4000_0000_0000)` is 0xFFFF_8000_0000_0000: the first physical address past the lower half maps to the first address of the upper half |
| BootFrames.RecursiveTableIndices | kernel/src/memory.rs:63-69 | for an index below 512, `get_page_table`'s address is canonical and page aligned, and all four of its page-table indices are the recursive index |
| BootFrames.IndexAt | kernel/src/memory.rs:65 | an address built from an index at some level has that index at that level |
| BootFrames.RecursiveTable511 | kernel/src/memory.rs:63-69 | index 511 gives the top page of the address space, 0xFFFF_FFFF_FFFF_F000 |
| Heap.AlignUp | kernel/src/allocator/mod.rs:70-77 | defines `align_up`; `AlignUpLeast` states that it is the least multiple of `align` at or above `addr` |
| Heap.AlignUpLeast | kernel/src/allocator/mod.rs:70-77 | `align_up` returns the least multiple of `align` that is at least `addr`: a multiple, not below `addr`, below `addr + align`, and `addr` itself exactly when `addr` is aligned |
| Heap.HeapPages | kernel/src/allocator/mod.rs:41-47 | the inclusive page range from the heap's first page to the page of `HEAP_START + HEAP_SIZE` holds 16 MiB / 4 KiB + 1 = 4097 pages, one past the heap |
| Heap.InitHeap | kernel/src/allocator/mod.rs:38-68 | `init_heap` succeeds exactly when every one of those page requests gets a frame; it maps page i to the i-th frame in order and stops at the first failure with `FrameAllocationFailed` |
| Exec.SegmentOf | kernel/src/process/exec.rs:42-54 | defines the `filter_map` closure: a non-`PT_LOAD` header is skipped, the kernel-memory assertion, the file slice (out of range panics), then `VirtAddr::new(p_vaddr)`; `SegmentAddress` states where each address range goes |
| Exec.Chunk | kernel/src/process/exec.rs:82-121 | corrected: defines one page of a segment, with `target_len` bounded by the room on the page; `ChunkContent` states its bytes |
| Exec.ChunkAsWritten | kernel/src/process/exec.rs:82-121 | defines the page fill as written, whose `target_len` is bounded by 4096 only; `ChunkAsWrittenPanics` states when it panics |
| Exec.LoadFrom | kernel/src/process/exec.rs:78-122 | defines the page loop from one page on, mapping each page (`map_to(..).unwrap()` panics on a mapped page) and filling it; `LoadFromMeaning` states its outcome |
| Exec.SegmentPages | kernel/src/process/exec.rs:72-122 | defines the loop for one segment: the `start + code.len()` and `align_up` overflows, the non-canonical end, the step over the hole and the underflow past 2^47, else `LoadFrom`; `SegmentPagesMeaning` states when it returns |
| Exec.LoadAll | kernel/src/process/exec.rs:42-123 | defines the loop over the segments the `filter_map` yields, in header order, the first panic ending it; `LoadAllMeaning` states its outcome |
| Exec.MapStack | kernel/src/process/exec.rs:179-207 | defines the user stack loop over the four pages below `STACK_TOP`; `MapStackMeaning` states its outcome |
| Exec.ProcessFromElf | kernel/src/process/exec.rs:18-215 | defines `create_process_from_elf`: the header checks, the header table, `VirtAddr::new(e_entry)`, the segments, the kernel stack and the user stack; `ElfRejected` and `ElfLoaded` state its outcomes |
| Exec.Zeros | kernel/src/process/exec.rs:118 | `fill(0)` over `n` bytes leaves `n` bytes, each zero |
| Exec.ProgramHeaders | kernel/src/process/exec.rs:33-40 | the program-header table read from offset 64 (whatever `e_phoff` says) has exactly `e_phnum` entries |
| Exec.SegmentAddress | kernel/src/process/exec.rs:42-54 | a `PT_LOAD` header's bytes go to `p_vaddr` below 2^47; from 2^47 to 2^48 they pass the kernel-memory assertion and go to the sign-extended address in the upper half; from 2^48 `VirtAddr::new` panics; from 0xFFFF_8000_0000_0000 the assertion panics |
| Exec.KernelHalfSegment | kernel/src/process/exec.rs:46-52 | a header with `p_vaddr` 0x8000_0000_1000 passes the assertion meant to keep segments out of kernel memory and is loaded at 0xFFFF_8000_0000_1000 |
| Exec.VisitedOffsets | kernel/src/process/exec.rs:78-85 | on every page the loop visits, `code_offset` does not pass the end of the code and `target_offset` stays inside the page |
| Exec.PageContent | kernel/src/process/exec.rs:78-122 | a page of a loaded segment is 4096 bytes |
| Exec.ChunkContent | kernel/src/process/exec.rs:118-121 | the corrected page fill puts on each visited page exactly the segment bytes that fall in it and zero elsewhere |
| Exec.ChunkAsWrittenPanics | kernel/src/process/exec.rs:84-119 | the fill as written panics exactly on the first page of a segment that starts part-way into that page and runs past its end; elsewhere it equals the corrected fill |
| Exec.UnalignedSegmentPanics | kernel/src/process/exec.rs:84-119 | a 4096-byte segment loaded at 0x40_1001 makes the fill as written panic on page 0x40_1000 |
| Exec.LoadFromStep | kernel/src/process/exec.rs:92-109 | corrected: a page of the segment that is already mapped makes `map_to(..).unwrap()` panic; any other page is mapped to its content and the loop goes on |
| Exec.ChunkPrefix | kernel/src/process/exec.rs:82-121 | the page content does not change when the segment is cut after the end of that page |
| Exec.NextPage | kernel/src/process/exec.rs:78-79 | `step_by(4096)` over aligned addresses visits pages a whole page apart |
| Exec.SegmentPagesMeaning | kernel/src/process/exec.rs:72-122 | corrected: for a segment at a canonical address, the page loop returns exactly when the rounded-up end fits in a `u64`, a lower-half segment ends by 2^47 and `LoadFrom` returns; it then gives what `LoadFrom` gives |
| Exec.CrossingSegmentPanics | kernel/src/process/exec.rs:78-85 | a 0x2000-byte segment at 0x7FFF_FFFF_F000 maps its page below 2^47, steps over the hole to 0xFFFF_8000_0000_0000, and panics on `code.len() - code_offset` |
| Exec.LoadFromMeaning | kernel/src/process/exec.rs:78-122 | corrected: loading a segment panics exactly when one of its pages is mapped already; otherwise it keeps every page, adds exactly the segment's pages and each holds its content |
| Exec.AddressVisited | kernel/src/process/exec.rs:78-79 | every address of a segment lies on a page the loop visits |
| Exec.SegmentReadable | kernel/src/process/exec.rs:72-122 | corrected: after a segment is loaded each of its bytes reads back at its virtual address and earlier pages are unchanged |
| Exec.LoadedExtends | kernel/src/process/exec.rs:72-122 | corrected: a segment stays readable when later loads add pages |
| Exec.SegmentLoaded | kernel/src/process/exec.rs:42-123 | corrected: a `PT_LOAD` header whose page loop returns has `p_vaddr` below 2^48, its file range in the file, a lower-half segment ending by 2^47, and its bytes readable from the address `VirtAddr::new` makes of `p_vaddr` |
| Exec.LoadAllMeaning | kernel/src/process/exec.rs:42-123 | corrected: when every segment loads, no mapped page changed and every `PT_LOAD` header has its file bytes readable from `VirtAddr::new(p_vaddr)`, which sign-extends an address from 2^47 to 2^48 into the upper half |
| Exec.MapStackMeaning | kernel/src/process/exec.rs:179-207 | the user stack loop panics exactly when one of its four pages is mapped already; otherwise every byte of the 16 KiB below `STACK_TOP` reads zero |
| Exec.IsfBytes | kernel/src/process/exec.rs:128-141 | the interrupt stack frame is 40 bytes |
| Exec.ContextBytes | kernel/src/process/exec.rs:151-173 | the saved context is 128 bytes |
| Exec.Pow256Eight | kernel/src/process/exec.rs:135-140 | eight little-endian bytes span exactly the 64-bit range |
| Exec.KernelStackLayout | kernel/src/process/exec.rs:125-176 | the context sits at 1024 - 40 - 128 = 856; its fifteen registers read zero and its `rip` is `trapret`; above it `iretq` finds entry, user code selector, RFLAGS with IF, `STACK_TOP` and user data selector |
| Exec.StackWords | kernel/src/process/exec.rs:142-175 | the words of the stack above 856 are the context's words, then the interrupt frame's |
| Exec.IsfWords | kernel/src/process/exec.rs:128-134 | the interrupt frame reads back as the five values written, in `iretq` order |
| Exec.ContextWords | kernel/src/process/exec.rs:151-170 | the context reads back as fifteen zero registers and `trapret` |
| Exec.ElfRejected | kernel/src/process/exec.rs:18-31 | the loader returns `Err` exactly when the 64-byte header is present and has a wrong magic or a class other than 2; a shorter file panics on the slice |
| Exec.ElfLoaded | kernel/src/process/exec.rs:18-215 | corrected: a created process comes from a file with the ELF magic and class 2 and an in-file header table; `VirtAddr::new(e_entry)` returned; each `PT_LOAD` segment is readable from `VirtAddr::new(p_vaddr)`; the user stack is mapped and zero; the context is at 856 and `iretq` finds the canonical entry |
| Exec.AddressSpace.constructor | kernel/src/process/exec.rs:69 | a new address space maps no user page |
| Exec.AddressSpace.Map | kernel/src/process/exec.rs:97-108 | mapping a page that is already mapped panics and changes nothing; otherwise that one page is added |
| Exec.AddressSpace.LoadSegment | kernel/src/process/exec.rs:72-122 | corrected: the page loop for one segment ends in the outcome and pages `SegmentPages` gives: an overflowing end panics, a lower-half segment running past 2^47 panics once its lower pages are mapped, and otherwise the pages `LoadFrom` gives |
| Exec.AddressSpace.LoadSegments | kernel/src/process/exec.rs:42-123 | corrected: the segment loop ends in the outcome and pages `LoadAll` gives, segments sign-extended by `VirtAddr::new` included |
| Exec.AddressSpace.MapUserStack | kernel/src/process/exec.rs:179-207 | the stack loop ends in the outcome and pages `MapStack` gives |
| Exec.FillChunk | kernel/src/process/exec.rs:115-121 | the three fills of the page buffer leave it holding the corrected page content |
| Exec.BuildKernelStack | kernel/src/process/exec.rs:125-176 | the new 1024-byte stack holds the layout `KernelStackLayout` describes, and `sp` is 856 |
| Exec.CreateProcessFromElf | kernel/src/process/exec.rs:18-215 | corrected: the loader returns, refuses or panics exactly as `ProcessFromElf` says, including the panic of `VirtAddr::new` on `e_entry` or `p_vaddr` from 2^48 below the upper half |
| ProcessExecutor.MapProcess | kernel/src/process/executor.rs:57-97 | defines `map_current_process`: code frames from `process_start` up, then stack frames from `STACK_TOP` down; `MapProcessFacts` states its outcome |
| ProcessExecutor.UnmapAsWritten | kernel/src/process/executor.rs:49-55 | defines `unmap_current_process` as written, unmapping `code_len` code pages and no stack page; `NextAsWrittenPanics` states its consequence |
| ProcessExecutor.UnmapProcess | kernel/src/process/executor.rs:49-55 | corrected: defines `unmap_current_process` as the undo of `map_current_process`; `UnmapProcessFacts` and `UnmapUndoesMap` state it |
| ProcessExecutor.NewSpec | kernel/src/process/executor.rs:16-32 | defines `Executor::new`: a queue holding only `init`, then mapped; `NewInstalls` states its outcome |
| ProcessExecutor.NextSpec | kernel/src/process/executor.rs:43-47 | corrected: defines `next_process` with the corrected unmap; `RoundRobin` and `NextKeepsInstalled` state it |
| ProcessExecutor.NextAsWritten | kernel/src/process/executor.rs:43-55 | defines `next_process` as written; `NextAsWrittenPanics` and `SingleProcessPanics` exhibit its panic |
| ProcessExecutor.ExitSpec | kernel/src/process/executor.rs:100-107 | corrected: defines `exit_current_process`: unmap the front, drop it, panic if nobody is left, else map the new front; `ExitKeepsInstalled` states it |
| ProcessExecutor.SuspendSpec | kernel/src/process/executor.rs:110-113 | corrected: defines `suspend_current_process`: save the registers into the front, then `next_process`; `SuspendSavesRegisters` states it |
| ProcessExecutor.CodePages | kernel/src/process/executor.rs:59-61 | the code pages of a process are `process_start + p * 4096`, one per code frame, in frame order |
| ProcessExecutor.StackPages | kernel/src/process/executor.rs:79-80 | the stack pages are `STACK_TOP - p * 4096`, one per stack frame, while none underflows |
| ProcessExecutor.MapPagesMeaning | kernel/src/process/executor.rs:59-77 | mapping a run of pages succeeds exactly when they are pairwise different and none is mapped yet; then it adds exactly those pages, each to its frame |
| ProcessExecutor.UnmapPagesMeaning | kernel/src/process/executor.rs:50-54 | unmapping a run of pages succeeds exactly when they are pairwise different and all mapped; then it removes exactly those pages |
| ProcessExecutor.StackLoops | kernel/src/process/executor.rs:79-96 | while no stack page underflows, the stack loop is the page loop over the stack pages |
| ProcessExecutor.StackUnderflowPanics | kernel/src/process/executor.rs:80 | a stack frame whose page would lie below address 0 makes the stack loop panic |
| ProcessExecutor.MapProcessFacts | kernel/src/process/executor.rs:57-97 | a successful `map_current_process` put the distinct code pages, none mapped before, on the table, then the distinct stack pages on top, and left every earlier mapping as it was |
| ProcessExecutor.UnmapProcessFacts | kernel/src/process/executor.rs:49-55 | corrected: unmapping every code and stack page of a mapped process succeeds and removes exactly those pages |
| ProcessExecutor.UnmapUndoesMap | kernel/src/process/executor.rs:49-97 | corrected: unmapping all the pages of a process just mapped gives back the page table from before the mapping |
| ProcessExecutor.Rotate | kernel/src/process/executor.rs:45 | `rotate_left(1)` keeps the length, moves the front to the back and shifts every other process one place forward |
| ProcessExecutor.RotateKeeps | kernel/src/process/executor.rs:45 | rotating keeps every process: the new queue is a permutation of the old |
| ProcessExecutor.RoundRobin | kernel/src/process/executor.rs:43-47 | after `k` rotations process `k` is in front, and `n` rotations of `n` processes give back the original queue |
| ProcessExecutor.NewInstalls | kernel/src/process/executor.rs:16-32 | `new` leaves a queue holding only the init process, with its pages mapped on the given table |
| ProcessExecutor.NextKeepsInstalled | kernel/src/process/executor.rs:43-47 | corrected: `next_process` panics exactly when the next process's pages clash with the base table; otherwise the queue is the rotation of the old one and only the new front's pages are mapped |
| ProcessExecutor.ExitKeepsInstalled | kernel/src/process/executor.rs:100-107 | corrected: `exit_current_process` panics when the last process exits, or when the next process's pages clash; otherwise it drops the front and maps only the new front's pages |
| ProcessExecutor.SuspendSavesRegisters | kernel/src/process/executor.rs:110-113 | corrected: `suspend_current_process` moves the front process, with the registers saved in it, to the back and maps only the new front |
| ProcessExecutor.NextAsWrittenPanics | kernel/src/process/executor.rs:49-55 | the unmapping as written removes only `code_len` code pages and leaves the stack pages mapped, so when the next front process has a stack, `next_process` panics |
| ProcessExecutor.SingleProcessPanics | kernel/src/process/executor.rs:16-55 | a single process with one code frame and one stack frame is mapped by `new`, and then `next_process` as written panics |
| ProcessExecutor.Executor.Make | kernel/src/process/executor.rs:21-29 | the executor holds only the init process, with the given start address and page table |
| ProcessExecutor.Executor.New | kernel/src/process/executor.rs:16-32 | `new` panics or returns a fresh executor whose queue and table are what `NewSpec` gives |
| ProcessExecutor.Executor.MapCurrent | kernel/src/process/executor.rs:57-97 | the two map loops leave the queue alone and end in the outcome and table `MapProcess` gives for the front process; an empty queue panics |
| ProcessExecutor.Executor.UnmapCurrent | kernel/src/process/executor.rs:49-55 | corrected: the unmap loop leaves the queue alone and ends in the outcome and table of unmapping every code and stack page of the front |
| ProcessExecutor.Executor.NextProcess | kernel/src/process/executor.rs:43-47 | corrected: `next_process` ends in the queue and table `NextSpec` gives |
| ProcessExecutor.Executor.ExitCurrentProcess | kernel/src/process/executor.rs:100-107 | corrected: `exit_current_process` ends in the queue and table `ExitSpec` gives |
| ProcessExecutor.Executor.SuspendCurrentProcess | kernel/src/process/executor.rs:110-113 | corrected: `suspend_current_process` ends in the queue and table `SuspendSpec` gives |
| Tasks.Issued | kernel/src/task/mod.rs:28-34 | `k` calls of `TaskId::new` hand out `k` ids |
| Tasks.IssuedIncreasing | kernel/src/task/mod.rs:28-34 | the ids handed out are strictly increasing while the 64-bit counter does not wrap, and pairwise different for up to 2^64 calls |
| Tasks.IdCounter.constructor | kernel/src/task/mod.rs:31 | the counter starts at 0 |
| Tasks.IdCounter.NewId | kernel/src/task/mod.rs:29-33 | `fetch_add(1)` returns the old counter and advances it by one, wrapping at 2^64 |
| Tasks.WakeIds | kernel/src/task/executor.rs:44-46 | each waker names one task id, in the order of the wakes |
| Tasks.PushAllMeaning | kernel/src/task/executor.rs:44-58 | each wake pushes its task id exactly once; the pushes succeed exactly when they fit the capacity of 100, and then the queue gains the woken ids in order |
| Tasks.PopFrom | kernel/src/task/mod.rs:60-70 | the pop loop returns only an id that has a task, and always shortens the queue unless it is empty |
| Tasks.PopFromMeaning | kernel/src/task/mod.rs:60-70 | the pop loop skips queued ids without a task and returns the first one with a task, leaving the queue after it; it finds none exactly when no queued id has a task, and then empties the queue |
| Tasks.PopNext | kernel/src/task/mod.rs:57-85 | a popped task had a task entry and is taken out of `tasks` |
| Tasks.PopTaskMeaning | kernel/src/task/mod.rs:57-85 | `pop_task` takes the found task out of `tasks`, reuses a cached waker and creates one only when the cache has none, and the cache only grows |
| Tasks.TurnKeepsValid | kernel/src/task/mod.rs:87-101 | one turn of the run loop keeps the invariant: a finished task leaves `tasks` and the waker cache, a pending one is put back under its id, and the queue gains the woken ids |
| Tasks.RunReady | kernel/src/task/mod.rs:54-103 | defines `run_ready_tasks` over a sequence of poll outcomes; `RunReadyKeepsValid` states the invariant it keeps and `Executor.RunReadyTasks` is proved against it |
| Tasks.RunReadyKeepsValid | kernel/src/task/mod.rs:54-103 | the run loop keeps the invariant (queue within capacity, tasks and wakers filed under their own ids below the counter) while every wake names a spawned task |
| Tasks.SpawnTask | kernel/src/task/executor.rs:21-28 | defines `spawn`: insert under the task's id (a duplicate panics), then push the id; `SpawnFresh` states when it succeeds |
| Tasks.SpawnFresh | kernel/src/task/executor.rs:21-28 | while the counter has not wrapped, `spawn` never meets a duplicate id: it panics only on a full queue, and otherwise files the new task under its fresh id and queues it last |
| Tasks.Executor.constructor | kernel/src/task/executor.rs:13-19 | a new executor has no tasks, an empty queue and an empty waker cache |
| Tasks.Executor.Push | kernel/src/task/executor.rs:27-45 | `push(..).expect(..)` on a full queue panics and changes nothing; otherwise the id goes to the back |
| Tasks.Executor.Spawn | kernel/src/task/executor.rs:21-28 | `spawn` advances the id counter and ends in the outcome and state `SpawnTask` gives |
| Tasks.Executor.Wake | kernel/src/task/executor.rs:44-58 | `wake` and `wake_by_ref` push their task's id once and touch nothing else |
| Tasks.Executor.PopTask | kernel/src/task/mod.rs:57-85 | the pop closure returns the popped task and leaves the state `PopNext` gives |
| Tasks.Executor.RunReadyTasks | kernel/src/task/mod.rs:54-103 | the run loop ends in the outcome and state `RunReady` gives for the polls' outcomes |
| Tasks.Executor.SleepIfIdle | kernel/src/task/mod.rs:113-124 | the core halts exactly when the queue is empty |
| Timer.Tick | kernel/src/task/timer.rs:14-21 | a tick keeps the 128 slots |
| Timer.TickWakesWhatItEmpties | kernel/src/task/timer.rs:12-22 | a tick empties exactly the slots it wakes: woken wakers plus still-filled slots make the filled slots before it, and every woken waker came from a due slot |
| Timer.DueIsWoken | kernel/src/task/timer.rs:14-17 | every slot whose target the pre-increment tick reaches has its waker woken |
| Timer.FirstEmpty | kernel/src/task/timer.rs:40 | `find(is_none)` returns only an empty slot of the table |
| Timer.FirstEmptyMeaning | kernel/src/task/timer.rs:40 | the search finds nothing exactly when every slot is filled, and otherwise the lowest empty slot |
| Timer.PollWaiter | kernel/src/task/timer.rs:33-45 | defines `TimerWaiter::poll`: ready at the target tick, else the waker goes into the first empty slot; `PollMeaning` states its outcome |
| Timer.PollMeaning | kernel/src/task/timer.rs:33-45 | `poll` is ready exactly when the tick count reaches the target; it panics "Out of timer slots" exactly when it is not and every slot is filled; when pending, the waker sits in the lowest empty slot and nothing else changed |
| Timer.PendingWaiterWakes | kernel/src/task/timer.rs:12-45 | a pending waiter's slot stays filled by every tick below its target and is emptied, with its waker woken, by a tick that reaches it |
| Timer.TimerTable.constructor | kernel/src/task/timer.rs:7-10 | `TICKS` starts at 0 and all 128 slots are empty |
| Timer.TimerTable.TickTimer | kernel/src/task/timer.rs:12-22 | `tick_timer` advances the counter, wrapping at 2^64, leaves the slots `Tick` gives and wakes the wakers `Woken` gives, in slot order |
| Timer.TimerTable.WaitNTicks | kernel/src/task/timer.rs:24-26 | `wait_n_ticks(n)` targets the current tick plus `n`, and the addition panics on overflow |
| Timer.TimerTable.Poll | kernel/src/task/timer.rs:33-45 | the poll returns or panics, and leaves the slots, exactly as `PollWaiter` says |
| Logging.Rank | kernel/src/log.rs:52 | levels compare by their rank, 1 for `Error` up to 5 for `Trace` |
| Logging.Routed | kernel/src/log.rs:72-81 | a device receives at most one line per queued record |
| Logging.RoutedAppend | kernel/src/log.rs:72-81 | draining two queues one after the other routes the same lines as draining their concatenation |
| Logging.RoutedSnoc | kernel/src/log.rs:72-81 | one more queued record adds its message to a device's lines exactly when its level passes that device's filter |
| Logging.FlushStep | kernel/src/log.rs:73-80 | one turn of the flush loop writes record `i` to a device exactly when its level passes the device's filter |
| Logging.RoutedMembers | kernel/src/log.rs:72-81 | a message reaches a device exactly when some queued record with that message passes the device's filter |
| Logging.Enabled | kernel/src/log.rs:51-53 | defines `enabled`: the level passes the serial or the console maximum |
| Logging.Format | kernel/src/log.rs:56-61 | defines the message `[level] target - args` |
| Logging.EnabledReachesADevice | kernel/src/log.rs:51-81 | every record `enabled` lets through reaches the serial port or the console |
| Logging.LogDelivers | kernel/src/log.rs:54-71 | with a non-zero capacity `log` never panics; each device gets, now or at the next flush, what it would have before plus the formatted message when the level passes its filter; the queue stays within capacity and is empty under auto-flush |
| Logging.FlushKeeps | kernel/src/log.rs:72-81 | a flush moves every queued message to its devices without losing or reordering any, and empties the queue |
| Logging.PushRecord | kernel/src/log.rs:55-66 | an enabled record goes to the back of the queue, after a flush when the queue was full; a refused record changes nothing; nothing is lost |
| Logging.Logger.constructor | kernel/src/log.rs:15-22 | the logger built by `init` has the given filters and capacity, auto-flush on and an empty queue |
| Logging.Logger.Flush | kernel/src/log.rs:72-81 | the flush loop leaves the devices and queue `Flushed` gives |
| Logging.Logger.Log | kernel/src/log.rs:54-71 | `log` ends in the outcome and state `Logged` gives |
| Logging.Logger.SetAutoFlush | kernel/src/log.rs:29-32 | the switch changes auto-flush and nothing else |
| Logging.LogGlobal.constructor | kernel/src/log.rs:9 | no logger is installed at first |
| Logging.LogGlobal.Init | kernel/src/log.rs:14-26 | the first `init` installs a fresh logger with the given filters and capacity, auto-flush on; a zero capacity panics; a second `init` panics |
| Logging.LogGlobal.SetAutoFlush | kernel/src/log.rs:29-32 | `set_auto_flush` before `init` panics; after it, it sets the flag and changes nothing else |
| Ustar.FileName | kernel/src/file/ustar.rs:123-135 | defines `file_name` as the name field up to its first NUL, or all 100 bytes; `NulPrefix` states that it holds no NUL and is a prefix of the field |
| Ustar.IsDirectory | kernel/src/file/ustar.rs:137-139 | defines a directory entry as type flag `5` |
| Ustar.IsFile | kernel/src/file/ustar.rs:141-143 | defines a regular file as type flag `0` or NUL |
| Ustar.HasMagicSlice | kernel/src/file/ustar.rs:61-63 | the magic test compares the 8-byte indicator field (offsets 257-264) with the GNU magic `ustar  \0`, byte for byte |
| Ustar.NulPrefix | kernel/src/file/ustar.rs:180-182 | the digits read are the bytes before the first NUL, none of them NUL, and the byte after them (if any) is the NUL |
| Ustar.AllOctalIff | kernel/src/file/ustar.rs:183 | a byte string is all octal exactly when each of its bytes is one of `0`..`7` |
| Ustar.OctAccMeaning | kernel/src/file/ustar.rs:178-192 | the accumulator yields `acc * 8^len + value` of the digits before the first NUL, or `UnexpectedNonOctalChar` when one of them is not octal |
| Ustar.OctToU32Spec | kernel/src/file/ustar.rs:178-192 | defines the value `oct_to_u32` computes, truncated to a `u32`; `OctToU32Meaning` relates it to the octal digits and `OctToU32` is proved against it |
| Ustar.OctToU32Meaning | kernel/src/file/ustar.rs:178-192 | `oct_to_u32` is the octal value of the digits before the first NUL, truncated to 32 bits by the shifts, or `UnexpectedNonOctalChar` |
| Ustar.ShiftOrStep | kernel/src/file/ustar.rs:184-185 | `n <<= 3; n \|= d` on a 32-bit `n` is `(8n + d) mod 2^32` for a digit below 8 |
| Ustar.OctToU32 | kernel/src/file/ustar.rs:178-192 | the loop over the field returns exactly the value or error `OctToU32Meaning` describes |
| Ustar.NulPrefixStop | kernel/src/file/ustar.rs:180-182 | a prefix without NUL is kept by the NUL cut, and a NUL (or the end) right after it ends the digits there |
| Ustar.OctalFixed | kernel/src/file/ustar.rs:178-192 | the writer's `w`-digit octal text has length `w` and is all octal digits |
| Ustar.OctalFixedValue | kernel/src/file/ustar.rs:178-192 | reading back the `w` digits of `n` gives `n` when `n < 8^w` |
| Ustar.OctFieldRoundTrip | kernel/src/file/ustar.rs:178-192 | a number below `8^w` and `2^32`, written as `w` digits and a NUL, reads back as itself whatever follows |
| Ustar.HeaderSumIgnoresField | kernel/src/file/ustar.rs:70-81 | the header sum counts the checksum field (offsets 148-155) as spaces, so it does not depend on what that field holds |
| Ustar.HeaderSumBound | kernel/src/file/ustar.rs:70-81 | the sum over 512 bytes stays below `255 * 512`, so it fits the `u32` it is summed into |
| Ustar.ReadRaw | kernel/src/file/ustar.rs:55-96 | an accepted slice is longer than 512 plus the size field, the entry's header is its first 512 bytes and its data the `size` bytes after them; errors come in the code's order |
| Ustar.Padding | kernel/src/file/ustar.rs:165-170 | the padding after an entry is below 512 and brings header plus data to a multiple of 512 |
| Ustar.AllEntriesStep | kernel/src/file/ustar.rs:161-176 | the walk ends with what it has at the first entry `read_raw` refuses, and otherwise keeps the entry and walks on from the next block boundary |
| Ustar.WalkStep | kernel/src/file/ustar.rs:164-173 | one turn of the loop keeps the invariant: the entries collected so far followed by the walk of the remaining slice are the walk of the archive |
| Ustar.GetAllEntries | kernel/src/file/ustar.rs:161-176 | the loop returns (or panics at the slicing) exactly as the recursive walk over the archive does |
| Ustar.HeaderBefore | kernel/src/file/ustar.rs:5-12 | the fields a writer puts before the checksum fill exactly offsets 0-147 |
| Ustar.HeaderAfter | kernel/src/file/ustar.rs:13-20 | the fields after the checksum fill exactly offsets 156-511 |
| Ustar.MakeHeader | kernel/src/file/ustar.rs:5-20 | a written header is 512 bytes long |
| Ustar.HeaderBeforeFields | kernel/src/file/ustar.rs:6-10 | in a written header the name sits at offset 0 padded with NULs, and the size at offset 124 as 11 octal digits and a NUL |
| Ustar.MakeHeaderFields | kernel/src/file/ustar.rs:5-20 | a written header carries the GNU magic, the entry's type, its size and a checksum field holding the header sum |
| Ustar.ReadRawOfHeader | kernel/src/file/ustar.rs:55-96 | `read_raw` decides from the 512 header bytes and the slice length only |
| Ustar.ReadRawAt | kernel/src/file/ustar.rs:55-96 | a slice starting with a valid header and its data, and longer than both, is read as that header and data |
| Ustar.ReadRawValid | kernel/src/file/ustar.rs:55-96 | a valid header, its data and at least one more byte read back as that header and data |
| Ustar.ExactFitRefused | kernel/src/file/ustar.rs:88-90 | the size check is strict: a valid entry whose data ends exactly at the slice's end is refused with `SliceTooSmall` |
| Ustar.MakeHeaderValid | kernel/src/file/ustar.rs:55-96 | a written header passes every check of `read_raw` for its data and carries the NUL-padded name |
| Ustar.ReadRawRoundTrip | kernel/src/file/ustar.rs:55-143 | reading a written entry gives back its header and data, its `file_name`, and `is_directory`/`is_file` true exactly for types `5` and `0`/NUL |
| Ustar.ZeroBlockStops | kernel/src/file/ustar.rs:61-63 | the zero blocks that end an archive fail the magic check |
| Ustar.StoredHead | kernel/src/file/ustar.rs:164-171 | in a stored layout the first file sits at the start and the rest of the layout begins after its padding |
| Ustar.EndStops | kernel/src/file/ustar.rs:161-176 | two zero blocks alone walk to no entries |
| Ustar.WalkCons | kernel/src/file/ustar.rs:161-176 | a valid stored file followed by a walk yielding the other files walks to all of them |
| Ustar.WalkStored | kernel/src/file/ustar.rs:161-176 | reading back any stored sequence of valid files yields those files in order |
| Ustar.BlocksStored | kernel/src/file/ustar.rs:165-171 | files laid out block by block with zero padding, then two zero blocks, form a stored layout |
| Ustar.Written | kernel/src/file/ustar.rs:5-20 | the files of an archive are its entries' headers with their data, one per entry, in order |
| Ustar.WrittenValid | kernel/src/file/ustar.rs:55-96 | every written file has a header `read_raw` accepts for its data |
| Ustar.AllEntriesRoundTrip | kernel/src/file/ustar.rs:161-176 | `get_all_entries` over an archive of entries ended by two zero blocks returns exactly those entries, in order, without panicking |
| Ustar.AllEntriesCons | kernel/src/file/ustar.rs:164-173 | an entry read at the head of the slice comes before the walk of what follows its padding |
| Ustar.OctToU32Edges | kernel/src/file/ustar.rs:180-188 | a non-octal byte before the first NUL is refused, and a field starting with NUL reads as 0 |
| Unwind.IsKernelIp | kernel/src/panic/unwind.rs:8-12 | `is_kernel_ip` panics when either static is unset, and otherwise holds exactly when `kstart <= ip < kstart + klen` |
| Unwind.KernelCodeOffset | kernel/src/panic/unwind.rs:49 | the code offset is defined exactly when the load address is at most 0xFFFF_FFFF_8000_0000, and added to the load address gives that link address |
| Unwind.NulFrom | kernel/src/panic/unwind.rs:95-98 | the NUL search returns only the position of a NUL at or after the start |
| Unwind.NulFromMeaning | kernel/src/panic/unwind.rs:95-98 | the search finds nothing exactly when no NUL follows the start, and otherwise the first one |
| Unwind.StrAtRoundTrip | kernel/src/panic/unwind.rs:94-100 | a valid UTF-8 name without NUL, stored with a NUL after it, is read back exactly |
| Unwind.StrAtMeaning | kernel/src/panic/unwind.rs:94-100 | what `get_str` returns is the valid UTF-8, NUL-free run of bytes at the offset that a NUL ends; with no NUL before the end of the table it returns nothing |
| Unwind.GetStr | kernel/src/panic/unwind.rs:94-100 | the counting loop returns exactly the string `StrAt` describes |
| Unwind.FindFrom | kernel/src/panic/unwind.rs:104-108 | a found symbol index is in the table and the symbol starts at or below the address |
| Unwind.FindFromMeaning | kernel/src/panic/unwind.rs:104-108 | the `find` returns the first function symbol, in table order, whose extent covers the address, or nothing when none does |
| Unwind.FindFromReturns | kernel/src/panic/unwind.rs:107 | when no symbol's extent reaches 2^64, the `st_value + st_size` addition never overflows |
| Unwind.LookupSymbol | kernel/src/panic/unwind.rs:102-114 | defines `lookup_symbol`: the checked shift to the link-time address, then the first covering function symbol; `LookupSymbolMeaning` states its outcome |
| Unwind.LookupSymbolMeaning | kernel/src/panic/unwind.rs:102-114 | a symbol is reported only for the first covering function symbol, with its readable name and the offset `vaddr - st_value`, below its size; nothing is reported exactly when no symbol covers the address or the first one's name is unreadable |
| Unwind.Lookup | kernel/src/panic/unwind.rs:102-114 | the loop returns exactly what `LookupSymbol` describes |
| Utf8.FirstLen | kernel/src/panic/unwind.rs:99 | the well-formed sequence at the start of the bytes is at most 4 bytes and lies within them |
| Utf8.Encode | kernel/src/panic/unwind.rs:99 | a scalar value encodes as 1 to 4 bytes |
| Utf8.EncodeFirstLen | kernel/src/panic/unwind.rs:99 | the encoding of a scalar value is one well-formed sequence, whatever follows it |
| Utf8.EncodeAllValid | kernel/src/panic/unwind.rs:99 | encoding any string of scalar values gives bytes `from_utf8` accepts |
| Utf8.InvalidExamples | kernel/src/panic/unwind.rs:99 | a lone continuation byte, an encoded surrogate and an overlong encoding are refused |
| Font.Matches | kernel/src/video/font.rs:93-96 | defines the chained byte comparison of the magic, with its out-of-range panic; `MatchesMeaning` states it |
| Font.Version | kernel/src/video/font.rs:92-101 | defines `psf_version`; `VersionMeaning` states which files are PSF1 and PSF2 |
| Font.Width | kernel/src/video/font.rs:18-28 | defines `width`: the PSF2 field at 28..32, 8 for PSF1, a panic for an invalid file; the header round trips state it |
| Font.Height | kernel/src/video/font.rs:30-40 | defines `height`: the PSF2 field at 24..28, the size byte for PSF1, a panic for an invalid file |
| Font.Charsize | kernel/src/video/font.rs:42-52 | defines `charsize`: the PSF2 field at 20..24, the size byte for PSF1, a panic for an invalid file |
| Font.HeaderLen | kernel/src/video/font.rs:54-64 | defines `header_len`: the PSF2 field at 8..12, 4 for PSF1, a panic for an invalid file |
| Font.GlyphCount | kernel/src/video/font.rs:66-82 | defines `glyph_count`: the PSF2 field at 16..20, 256 or 512 for PSF1 by mode bit 0, a panic for an invalid file |
| Font.HasUnicodeTable | kernel/src/video/font.rs:84-90 | defines `has_unicode_table`: PSF1 mode bit 1, else PSF2 flags bit 0 |
| Font.MatchesMeaning | kernel/src/video/font.rs:93-96 | the chained byte comparison holds exactly when the pattern starts the file, and panics exactly when the file ends inside a matching prefix |
| Font.VersionMeaning | kernel/src/video/font.rs:92-101 | a file of at least four bytes is PSF2 exactly when it starts `72 B5 4A 86`, and PSF1 exactly when it does not but starts `36 04` |
| Font.Psf2HeaderRoundTrip | kernel/src/video/font.rs:18-90 | on a PSF2 header the getters read back the header length, glyph count, glyph size, height and width at offsets 8-31, and the unicode-table flag from bit 0 of the flags |
| Font.Psf2Field | kernel/src/video/font.rs:21-23 | `u32::from_le_bytes` of four little-endian bytes of `v` gives `v` |
| Font.Psf1HeaderRoundTrip | kernel/src/video/font.rs:18-90 | on a PSF1 header the width is 8, height and glyph size are the size byte, the header is 4 bytes, there are 512 glyphs when mode bit 0 is set and 256 otherwise, and a unicode table when mode bit 1 is set |
| Font.Decode2 | kernel/src/video/font.rs:114-207 | defines the PSF2 table decoder loop from an offset on; `Decode2InRange`, `DecodeEncoded` and `DecodeSeparators` state it |
| Font.Decode2InRange | kernel/src/video/font.rs:114-207 | every glyph id the PSF2 table decoder stores is below the glyph count |
| Font.DecodeEncoded | kernel/src/video/font.rs:141-197 | reading the UTF-8 encoding of a character maps it to the current glyph, overwriting an earlier mapping, and leaves the decoder between characters |
| Font.TwoByteDecode | kernel/src/video/font.rs:149-160 | a two-byte sequence maps its character, assembled from 5 and 6 payload bits |
| Font.ThreeByteDecode | kernel/src/video/font.rs:150-176 | a three-byte sequence maps its character, assembled from 4, 6 and 6 payload bits |
| Font.FourByteDecode | kernel/src/video/font.rs:151-197 | a four-byte sequence maps its character, assembled from 3, 6, 6 and 6 payload bits |
| Font.DecodeStep | kernel/src/video/font.rs:137-140 | one turn of the loop reads one byte and goes on from the next offset |
| Font.DecodeSeparators | kernel/src/video/font.rs:142-203 | 0xFF moves to the next glyph; 0xFE starts a character sequence that is skipped up to the 0xFF ending the glyph |
| Font.SkipSeq | kernel/src/video/font.rs:198-203 | inside a character sequence every byte up to the next 0xFF is skipped, and that 0xFF moves to the next glyph |
| Font.Decode2Examples | kernel/src/video/font.rs:114-207 | a table listing `A` for glyph 0 and again for glyph 1 maps `A` to glyph 1; a lone continuation byte panics as malformed |
| Font.Code16 | kernel/src/video/font.rs:222-224 | `u16::from_le_bytes` is below 0x10000, with the first byte as low byte and the second as high byte |
| Font.Decode1 | kernel/src/video/font.rs:209-248 | defines the PSF1 table decoder loop, with the `decode_utf16(..).unwrap()` panic; `Decode1InRange` and `Decode1Examples` state it |
| Font.Decode1InRange | kernel/src/video/font.rs:209-248 | every glyph id the PSF1 table decoder stores is below the glyph count, and every character it maps is below 0x10000 |
| Font.Decode1Examples | kernel/src/video/font.rs:209-248 | a PSF1 table listing `A` for glyph 0 maps `A` to glyph 0; a lone surrogate code panics in the UTF-16 `unwrap` |
| Font.GlyphMap | kernel/src/video/font.rs:103-112 | defines `generate_glyph_map`: empty without a table, else the decoder for the version; `GlyphMapInRange` states it |
| Font.GlyphMapInRange | kernel/src/video/font.rs:103-112 | every glyph id in the glyph map names a glyph of the font |
| Font.GlyphOf | kernel/src/video/font.rs:250-261 | defines the glyph of one character: the map entry or 0x91 with a table, else the ASCII code or 0x91; `StrToGlyphsInRange` states its range |
| Font.StrToGlyphs | kernel/src/video/font.rs:250-261 | `str_to_glyphs` yields one glyph id per character |
| Font.StrToGlyphsInRange | kernel/src/video/font.rs:250-261 | when every mapped glyph exists and the font has more than 0x91 glyphs, every glyph id `str_to_glyphs` yields names a glyph of the font |
| Font.GlyphBitmap | kernel/src/video/font.rs:263-273 | defines `get_glyph_bitmap`; `GlyphBitmapMeaning` states it |
| Font.GlyphBitmapMeaning | kernel/src/video/font.rs:263-273 | `get_glyph_bitmap` is `Err` exactly when the id is past the glyph count; otherwise it gives `charsize / height` and the `charsize` bytes at `header_len + gid * charsize`, or panics when those run past the file |
| Font.GenerateGlyphMapPsf2 | kernel/src/video/font.rs:114-207 | the decoder loop returns or panics exactly as `GlyphMap2` says |
| Font.GenerateGlyphMapPsf1 | kernel/src/video/font.rs:209-248 | the decoder loop returns or panics exactly as `GlyphMap1` says |
| Framebuffer.NewRgb | kernel/src/video/framebuffer.rs:242-245 | defines an opaque pixel; `NewRgbIsHex` relates it to the hex code |
| Framebuffer.FromU32Rgba | kernel/src/video/framebuffer.rs:247-257 | defines the pixel of the hex code `0xRRGGBBAA`; `RgbaRoundTrip` and `RgbaCodeRoundTrip` make it the inverse of `ToU32Rgba` |
| Framebuffer.FromU32Rgb | kernel/src/video/framebuffer.rs:259-269 | defines the opaque pixel of the hex code `0x00RRGGBB`; `RgbIgnoresTopByte` states that the top byte is ignored |
| Framebuffer.ToU32Rgba | kernel/src/video/framebuffer.rs:247-257 | defines the hex code of a pixel, the reference the two round trips use |
| Framebuffer.RgbaRoundTrip | kernel/src/video/framebuffer.rs:247-257 | `from_u32_rgba` of a pixel's hex code `0xRRGGBBAA` gives back the pixel |
| Framebuffer.RgbaCodeRoundTrip | kernel/src/video/framebuffer.rs:247-257 | every `u32` is the hex code of the pixel `from_u32_rgba` makes of it |
| Framebuffer.Bytes | kernel/src/video/framebuffer.rs:250-262 | `to_be_bytes` splits a `u32` into four base-256 digits, most significant first |
| Framebuffer.RgbIgnoresTopByte | kernel/src/video/framebuffer.rs:259-269 | `from_u32_rgb` ignores the top byte and is `from_u32_rgba` of the low three bytes with alpha 255 |
| Framebuffer.NewRgbIsHex | kernel/src/video/framebuffer.rs:242-269 | `new_rgb(r, g, b)` is `from_u32_rgb` of the hex code `0xRRGGBB` |
| Framebuffer.FlatInRange | kernel/src/video/framebuffer.rs:190-197 | a pixel inside the rectangle has its place `y * width + x` inside the buffer |
| Framebuffer.GfxRectangle.Make | kernel/src/video/framebuffer.rs:166-170 | a rectangle holds `width * height` pixels, row by row |
| Framebuffer.GfxRectangle.Blank | kernel/src/video/framebuffer.rs:173-177 | `blank` panics exactly when `width * height` overflows a `u32`, and otherwise every pixel is `BLANK` |
| Framebuffer.GfxRectangle.Get | kernel/src/video/framebuffer.rs:190-197 | `get` is `None` exactly off the rectangle, and otherwise the pixel at place `y * width + x` |
| Framebuffer.GfxRectangle.Set | kernel/src/video/framebuffer.rs:199-220 | `rect[(x, y)] = p` panics exactly off the rectangle, and otherwise sets that pixel and no other |
| Framebuffer.GfxRectangle.With | kernel/src/video/framebuffer.rs:179-188 | `with` panics exactly when `blank` does, and otherwise every pixel `(x, y)` is `f(x, y)` |
| Framebuffer.GfxRectangle.AllSetIsRectOf | kernel/src/video/framebuffer.rs:179-188 | a rectangle whose every pixel `(x, y)` is `f(x, y)` holds exactly the pixels of `f`, row by row |
| Framebuffer.GfxRectangle.PlaceIsSet | kernel/src/video/framebuffer.rs:190-197 | each place of the buffer holds what `f` gives the pixel stored there |
| Framebuffer.RectOf | kernel/src/video/framebuffer.rs:179-188 | the pixels of a `width` by `height` rectangle are `width * height` |
| Framebuffer.Unflatten | kernel/src/video/framebuffer.rs:196 | every place of the buffer is the place of exactly one pixel inside the rectangle |
| Framebuffer.FlatInjective | kernel/src/video/framebuffer.rs:196 | different pixels of a rectangle have different places |
| Framebuffer.LocateOffset | kernel/src/video/framebuffer.rs:72 | within whole rows, the byte at `fby * stride + fbx * bytes_per_pixel + c` is channel byte `c` of pixel `(fbx, fby)` |
| Framebuffer.OffsetOfLocate | kernel/src/video/framebuffer.rs:72 | every byte of the memory is some channel byte of some pixel |
| Framebuffer.Painted | kernel/src/video/framebuffer.rs:64-77 | painting does not change the memory's length |
| Framebuffer.PaintedColumns | kernel/src/video/framebuffer.rs:66-76 | painting two adjacent column ranges paints their union |
| Framebuffer.PaintedRows | kernel/src/video/framebuffer.rs:64-77 | painting two adjacent row ranges paints their union |
| Framebuffer.PaintPixelMeaning | kernel/src/video/framebuffer.rs:67-75 | one turn of the inner loop skips a fully transparent pixel and otherwise writes its red, green and blue bytes at the pixel's place |
| Framebuffer.PixelInBuffer | kernel/src/video/framebuffer.rs:72-75 | the bytes of a pixel inside the clipped range lie inside its row and inside the memory |
| Framebuffer.PaintRowMeaning | kernel/src/video/framebuffer.rs:66-76 | the inner loop paints its columns of one row and nothing else, without panicking |
| Framebuffer.PaintRowsMeaning | kernel/src/video/framebuffer.rs:64-77 | the outer loop paints the clipped rows and columns and nothing else, without panicking |
| Framebuffer.Blitted | kernel/src/video/framebuffer.rs:16-31 | the reference blit changes no byte count |
| Framebuffer.BlitMeaning | kernel/src/video/framebuffer.rs:16-78 | with distinct byte-aligned channels, `blit` writes exactly the on-screen, opaque pixels of the rectangle at their screen place, only their red, green and blue bytes; with other channels it writes nothing |
| Framebuffer.Clipping | kernel/src/video/framebuffer.rs:35-40 | defines the `i32` clipping of `blit`, with its subtraction and addition overflows; `ClipPanics` and `ClipMeaning` state its panics and its ranges |
| Framebuffer.BlitSpec | kernel/src/video/framebuffer.rs:31-78 | defines the memory after the default `blit`; `BlitMeaning` states which bytes it writes |
| Framebuffer.ClipMeaning | kernel/src/video/framebuffer.rs:35-40 | the clipped ranges are exactly the screen pixels the rectangle covers, and the offsets turn a screen pixel into its place in the rectangle |
| Framebuffer.ClipPanics | kernel/src/video/framebuffer.rs:35-40 | the clipping panics exactly for a coordinate of `i32::MIN` (the subtraction `xstart - coords.0` overflows) or when `coords + size` leaves `i32`; the first gives the subtraction message, any other panic the addition message |
| Framebuffer.PaintedIsBlitted | kernel/src/video/framebuffer.rs:35-77 | byte by byte, the loops over the clipped ranges write what the reference blit says |
| Framebuffer.NullDrawsNothing | kernel/src/video/framebuffer.rs:81-100 | the null framebuffer has no pixels and no memory, and a blit on it changes nothing |
| Framebuffer.Screen.constructor | kernel/src/video/framebuffer.rs:9-14 | a framebuffer holds its info and the given memory |
| Framebuffer.Screen.Blit | kernel/src/video/framebuffer.rs:31-78 | the two loops leave the memory `BlitSpec` gives, or panic where it says |
| Framebuffer.Screen.DrawPixel | kernel/src/video/framebuffer.rs:67-75 | one turn of the inner loop leaves the memory `PaintPixel` gives |
| Text.Split | kernel/src/video/console.rs:97 | `split('\n')` gives at least one piece |
| Text.SplitJoin | kernel/src/video/console.rs:97 | the pieces hold no newline, and joined with a newline between each two they give back the string |
| Text.JoinSplit | kernel/src/video/console.rs:97 | pieces without newlines, joined and split again, come back unchanged |
| Text.GlyphOps | kernel/src/video/console.rs:100-102 | a line gives one glyph step per character |
| Text.CharOps | kernel/src/video/console.rs:96-112 | the character-by-character reading gives one step per character |
| Text.SplitOps | kernel/src/video/console.rs:96-112 | drawing the first line, then a line break before each further line, is the same as a line break for each newline and a glyph for every other character, in order |
| Text.LaterOpsSnoc | kernel/src/video/console.rs:105-110 | a further line's steps, a break and its glyphs, come after the steps of the lines before it |
| Text.LineOpsNext | kernel/src/video/console.rs:99-110 | the steps of the first `i + 1` lines are those of the first `i`, a break when `i > 0`, and the glyphs of line `i` |
| Text.RunOpsNewline | kernel/src/video/console.rs:106 | a run that starts with a line break that returns goes on from the state after it |
| Text.RunOpsFirst | kernel/src/video/console.rs:96-112 | a run is its first step, then the other steps from where that ends; a panic stops it |
| Text.RunOpsAppend | kernel/src/video/console.rs:96-112 | running two step lists one after the other is running their concatenation |
| Text.RunOpsSnoc | kernel/src/video/console.rs:96-112 | running one more step continues from where the run ended |
| Text.Advance | kernel/src/video/console.rs:68-71 | after a glyph the cursor is at the next column, or at column 0 of the next row, and a column on the screen stays on it |
| Text.Mask | kernel/src/video/console.rs:60 | `1 << k` for a bit of a byte is not zero |
| Text.GlyphBitLayout | kernel/src/video/console.rs:60 | byte `j` of glyph row `y` holds pixels `8j` to `8j + 7`, the leftmost in bit 7 |
| Text.HighLowBit | kernel/src/video/console.rs:60 | bit 7 of a byte is set exactly when the byte is at least 0x80, and bit 0 exactly when it is odd |
| Text.BitmapIndexInRange | kernel/src/video/console.rs:60 | every pixel of a glyph no wider than `bytes_per_row * 8` reads a byte inside its `height * bytes_per_row` bitmap |
| Console.GlyphRect | kernel/src/video/console.rs:54-66 | the glyph's rectangle has one pixel per point of its width by height |
| Console.GlyphStep | kernel/src/video/console.rs:47-72 | defines `write_glyph`: a missing glyph draws nothing, else the glyph is drawn; `GlyphStepCursor` and `GlyphDrawnAtCursor` state it |
| Console.NewlineStep | kernel/src/video/console.rs:74-92 | defines `newline`: the start of the next row, with `scroll_down` doing nothing; `CursorStaysInRow` states it |
| Console.GlyphStepCursor | kernel/src/video/console.rs:47-72 | a glyph step that returns leaves the cursor where it was or advances it one cell |
| Console.MissingGlyphKeeps | kernel/src/video/console.rs:48-51 | a glyph id past the font's glyphs draws nothing and keeps the cursor |
| Console.CursorStaysInRow | kernel/src/video/console.rs:68-80 | whatever is written, the column stays inside a row and the row never goes back: nothing scrolls |
| Console.GlyphReadsInsideMeaning | kernel/src/video/console.rs:60 | every byte the glyph's pixels read is inside the bitmap exactly when the last pixel's is |
| Console.GlyphDrawnAtCursor | kernel/src/video/console.rs:47-72 | an existing glyph, with its cell inside the positive `i32` range, is blitted with its top-left corner at `(col * width, row * height)` and the cursor advances |
| Console.DrawGlyphAtCell | kernel/src/video/console.rs:52-72 | the blit of the glyph's rectangle at the cursor's cell returns the framebuffer drawn there and the advanced cursor |
| Console.CellInRange | kernel/src/video/console.rs:52-67 | a cell whose end is below 2^31 keeps its start through the `as i32` casts |
| Console.ClipInRange | kernel/src/video/console.rs:67 | a rectangle at a non-negative position with its far corner below 2^31 always clips without panicking |
| Console.CellNext | kernel/src/video/console.rs:52-53 | the next cell starts one glyph size further on |
| Console.Console.constructor | kernel/src/video/console.rs:24-37 | as many rows and columns as whole glyphs fit, the cursor at the top left, white on opaque black |
| Console.Console.WriteGlyph | kernel/src/video/console.rs:47-72 | the new cursor and framebuffer, or the panic, are those of the glyph step |
| Console.Console.Newline | kernel/src/video/console.rs:74-92 | the cursor moves to column 0 of the next row and the framebuffer is unchanged |
| Console.Console.WriteLine | kernel/src/video/console.rs:100-109 | the result is that of running the line's glyph steps in order |
| Console.Console.WriteStr | kernel/src/video/console.rs:95-113 | the result is that of writing the string one character at a time, a newline breaking the line |
| Console.Console.WriteLines | kernel/src/video/console.rs:97-112 | the result is that of the first line's glyphs, then a break and the glyphs of each further line |
| Console.Console.NextLine | kernel/src/video/console.rs:105-110 | one pass is a line break followed by the line's glyphs |
| Vesa.Argb | kernel/src/video/vesa.rs:92-103 | a colour's `as_argb_u32` always fits in 24 bits |
| Vesa.BeBytes | kernel/src/video/vesa.rs:46 | `to_be_bytes` gives four bytes |
| Vesa.BeRoundTrip | kernel/src/video/vesa.rs:46-81 | `from_be_bytes` of `to_be_bytes` gives the word back |
| Vesa.FromBeRoundTrip | kernel/src/video/vesa.rs:46-81 | `to_be_bytes` of `from_be_bytes` gives the four bytes back |
| Vesa.ArgbBytes | kernel/src/video/vesa.rs:92-103 | the top byte of a colour is 0; a triple's bytes are `0, r, g, b`; a word keeps its low three bytes |
| Vesa.WordLowBytes | kernel/src/video/vesa.rs:101 | masking a word with 0x00FFFFFF zeroes its first big-endian byte and keeps the other three |
| Vesa.DrawPixelSpec | kernel/src/video/vesa.rs:42-53 | defines the memory after `draw_pixel`; `DrawPixelMeaning` and `GetAfterDraw` state it |
| Vesa.DrawPixelMeaning | kernel/src/video/vesa.rs:42-53 | an off-screen pixel changes nothing; an on-screen one panics exactly when its four-byte slice runs past the buffer, and otherwise gets the colour's red, green and blue bytes with every other byte unchanged |
| Vesa.GetAfterDraw | kernel/src/video/vesa.rs:42-85 | after drawing an on-screen pixel, reading it gives its old fourth byte on top of the colour's 24 bits |
| Vesa.ReadBack | kernel/src/video/vesa.rs:48-81 | the four bytes at a pixel's offset, read as `[a, r, g, b]`, are the old fourth byte over the colour written |
| Vesa.Disjoint | kernel/src/video/vesa.rs:35-38 | two different pixels of a line no wider than the stride have non-overlapping colour bytes when pixels are at least three bytes wide |
| Vesa.LastPixelFarthest | kernel/src/video/vesa.rs:35-38 | no on-screen pixel lies past the last pixel's offset |
| Vesa.Put3Frame | kernel/src/video/vesa.rs:48-52 | writing a pixel's three colour bytes leaves a disjoint pixel's bytes alone |
| Vesa.Put3Here | kernel/src/video/vesa.rs:48-52 | writing a pixel's three colour bytes puts exactly them there |
| Vesa.ScrollPixel | kernel/src/video/vesa.rs:183-187 | one pixel of the scroll's rectangle does not panic and extends the part already scrolled by that pixel |
| Vesa.ScrollRead | kernel/src/video/vesa.rs:183-187 | the closure gives a word whose colour bytes are those of the pixel a glyph height below, or the background |
| Vesa.ScrollWritten | kernel/src/video/vesa.rs:183-187 | writing the scrolled colour of one pixel keeps the pixels already scrolled and those not yet read |
| Vesa.ScrollRow | kernel/src/video/vesa.rs:180-187 | one row of the scroll does not panic and scrolls that whole row |
| Vesa.ScrollRows | kernel/src/video/vesa.rs:180-187 | the remaining rows of the scroll do not panic and scroll every pixel |
| Vesa.ScrollMeaning | kernel/src/video/vesa.rs:178-188 | the whole-screen rectangle does not panic and gives every pixel the colour a glyph height below it, or the background at the bottom, although the closure reads the screen while it is overwritten |
| Vesa.Screen.constructor | kernel/src/video/vesa.rs:22-24 | the screen holds the framebuffer it is given |
| Vesa.Screen.DrawPixel | kernel/src/video/vesa.rs:42-53 | the new buffer, or the panic, is that of drawing the pixel |
| Vesa.Screen.DrawRectWith | kernel/src/video/vesa.rs:57-73 | the new buffer, or the panic, is that of drawing the rectangle row by row, each pixel's colour taken from the closure on the screen as it stands |
| Vesa.Screen.DrawRow | kernel/src/video/vesa.rs:69-71 | the new buffer, or the panic, is that of drawing one row of the rectangle left to right |
| Vesa.GlyphStep | kernel/src/video/vesa.rs:142-168 | defines `write_glyph`: a missing glyph draws nothing, else `DrawGlyphStep`; `GlyphCursor` states the cursor after it |
| Vesa.DrawGlyphStep | kernel/src/video/vesa.rs:150-168 | defines drawing a found glyph in the cursor's cell and moving the cursor on, breaking the line at the row's end |
| Vesa.NewlineStep | kernel/src/video/vesa.rs:170-176 | defines `newline`, scrolling past the last row; `NewlineCursor` states it |
| Vesa.ScrollStep | kernel/src/video/vesa.rs:178-188 | defines `scroll_down`: a checked row decrement and the picture moved up a glyph height; `ScrollStepMeaning` states it |
| Vesa.NewlineCursor | kernel/src/video/vesa.rs:170-176 | a line break that returns puts the cursor at column 0 of the next row, or of the same row when it was the last |
| Vesa.GlyphCursor | kernel/src/video/vesa.rs:142-168 | a missing glyph changes nothing; a drawn one moves the cursor to the next cell, and a cursor on the screen stays on it |
| Vesa.ScrollStepMeaning | kernel/src/video/vesa.rs:178-188 | scrolling from past the first row does not panic, takes the row back by one, keeps the column and scrolls the picture up by a glyph height |
| Vesa.Console.constructor | kernel/src/video/vesa.rs:124-140 | as many rows and columns as whole glyphs fit, the font's character map, the cursor at the top left, white on black |
| Vesa.Console.WriteGlyph | kernel/src/video/vesa.rs:142-168 | the new cursor and buffer, or the panic, are those of the glyph step |
| Vesa.Console.Newline | kernel/src/video/vesa.rs:170-176 | the new cursor and buffer, or the panic, are those of the line break |
| Vesa.Console.ScrollDown | kernel/src/video/vesa.rs:178-188 | the new cursor and buffer, or the panic, are those of the scroll |
| Vesa.CursorStaysOnScreen | kernel/src/video/vesa.rs:142-176 | whatever is written, a cursor on the screen stays on it: the last row scrolls instead of moving down |
| Vesa.Console.WriteLine | kernel/src/video/vesa.rs:196-205 | the result is that of running the line's glyph steps in order |
| Vesa.Console.WriteStr | kernel/src/video/vesa.rs:192-208 | the result is that of writing the string one character at a time, a newline breaking the line and scrolling past the last row |
| Vesa.Console.WriteLines | kernel/src/video/vesa.rs:193-206 | the result is that of the first line's glyphs, then a break and the glyphs of each further line |
| Vesa.Console.NextLine | kernel/src/video/vesa.rs:201-206 | one pass is a line break followed by the line's glyphs; a panicking break ends it |
| LegacyVesa.ScreenInBuffer | src/video/vesa.rs:22-43 | with lines no wider than the pitch, every on-screen pixel's word is inside the `pitch * height` words |
| LegacyVesa.DrawPixelSpec | src/video/vesa.rs:38-45 | defines the memory after `draw_pixel`; `GetAfterDraw` states it |
| LegacyVesa.GetAfterDraw | src/video/vesa.rs:38-67 | drawing never panics on such a buffer; after drawing an on-screen pixel, reading it gives the colour's 24-bit word and every other word is unchanged; off the screen nothing changes |
| LegacyVesa.RectIgnoresEdges | src/video/vesa.rs:47-59 | against its own comment, a rectangle pixel one past the right edge is drawn at the start of the next line, and one past the buffer panics |
| LegacyVesa.ScrollPixel | src/video/vesa.rs:172-179 | one pixel of the scroll does not panic, stores the colour its closure reads, and extends the part already scrolled |
| LegacyVesa.ScrollRow | src/video/vesa.rs:172-179 | one line of the scroll does not panic and scrolls the whole line |
| LegacyVesa.ScrollRows | src/video/vesa.rs:172-179 | the remaining lines of the scroll do not panic and scroll every pixel |
| LegacyVesa.ScrollMeaning | src/video/vesa.rs:169-180 | the whole-screen rectangle does not panic, gives every word of the screen its shifted value and leaves the words after the screen alone |
| LegacyVesa.ShiftedAt | src/video/vesa.rs:177-178 | a pixel's shifted value is the 24-bit word of the pixel a glyph height below it, or of the background below the screen |
| LegacyVesa.Screen.constructor | src/video/vesa.rs:22-34 | the screen is the `pitch * height` words of the mode, with its width and height |
| LegacyVesa.Screen.DrawPixel | src/video/vesa.rs:38-45 | the new buffer is that of drawing the pixel |
| LegacyVesa.Screen.DrawRectWith | src/video/vesa.rs:49-59 | the new buffer, or the panic, is that of storing the closure's colour at word `row * width + col` for every pixel, row by row, with no bounds check but the slice's |
| LegacyVesa.GlyphStep | src/video/vesa.rs:134-159 | defines `write_glyph`: a missing glyph draws nothing, else the glyph is drawn and the cursor moves on; `GlyphCursor` states it |
| LegacyVesa.NewlineStep | src/video/vesa.rs:161-167 | defines `newline`, scrolling past the last row; `NewlineCursor` states it |
| LegacyVesa.ScrollStep | src/video/vesa.rs:169-180 | defines `scroll_down`: a checked row decrement and the picture moved up a glyph height; `ScrollStepMeaning` states it |
| LegacyVesa.GlyphCursor | src/video/vesa.rs:134-167 | a missing glyph changes nothing; a drawn one moves the cursor to the next cell, and a cursor on the screen stays on it |
| LegacyVesa.ScrollStepMeaning | src/video/vesa.rs:161-180 | scrolling from past the first row does not panic, takes the row back by one and gives the screen's words their shifted values |
| LegacyVesa.GlyphColorReturns | src/video/vesa.rs:146-153 | inside the glyph's cell the closure reads a byte of a bitmap that fits and does not panic |
| LegacyVesa.RowReturns | src/video/vesa.rs:55-57 | a line of a rectangle on the screen whose closure does not panic does not panic and keeps the buffer's length |
| LegacyVesa.RowsReturn | src/video/vesa.rs:53-58 | such a rectangle's lines do not panic |
| LegacyVesa.GlyphDrawReturns | src/video/vesa.rs:116-159 | with the cursor inside a console sized as `new` sizes it, a glyph whose bitmap fits is drawn without a panic |
| LegacyVesa.CellOnScreen | src/video/vesa.rs:122-140 | a cell of a row or column that `new` counts ends inside the screen |
| LegacyVesa.Console.constructor | src/video/vesa.rs:116-132 | as many rows and columns as whole glyphs fit, the cursor at the top left, white on black |
| LegacyVesa.Console.WriteGlyph | src/video/vesa.rs:134-159 | the new cursor and screen, or the panic, are those of the glyph step |
| LegacyVesa.Console.Newline | src/video/vesa.rs:161-167 | the new cursor and screen, or the panic, are those of the line break |
| LegacyVesa.Console.ScrollDown | src/video/vesa.rs:169-180 | the new cursor and screen, or the panic, are those of the scroll |
| LegacyVesa.NewlineCursor | src/video/vesa.rs:161-167 | a line break that returns puts the cursor at column 0 of the next row, or of the same row when it was the last |
| LegacyVesa.CursorStaysOnScreen | src/video/vesa.rs:134-167 | whatever is written, a cursor on the screen stays on it: the last row scrolls instead of moving down |
| LegacyVesa.Console.WriteLine | src/video/vesa.rs:188-197 | the result is that of running the line's glyph steps in order |
| LegacyVesa.Console.WriteStr | src/video/vesa.rs:184-200 | the result is that of writing the string one character at a time, a newline breaking the line and scrolling past the last row |
| LegacyVesa.Console.WriteLines | src/video/vesa.rs:185-198 | the result is that of the first line's glyphs, then a break and the glyphs of each further line |
| LegacyVesa.Console.NextLine | src/video/vesa.rs:193-198 | one pass is a line break followed by the line's glyphs; a panicking break ends it |
| Vga.FromColorsFields | src/video/vga.rs:64-70 | `from_colors` puts the foreground, background and blink flag where they are read back from, and every style byte is `from_colors` of its own fields |
| Vga.WithFgColor | src/video/vga.rs:72-76 | `with_fg_color` replaces the foreground and keeps the background and the blink flag |
| Vga.WithBgColor | src/video/vga.rs:78-82 | `with_bg_color` replaces the background and keeps the foreground and the blink flag |
| Vga.WithBlinkAsWrittenWrong | src/video/vga.rs:84-88 | as written, asking for blinking clears the blink flag and sets the top background bit instead: white on black becomes white on red |
| Vga.FromColors | src/video/vga.rs:64-70 | defines a style byte: blink in bit 7, background in bits 4 to 6, foreground in bits 0 to 3 |
| Vga.WithBlinkAsWritten | src/video/vga.rs:84-88 | defines `with_blink` as written, which ORs in 0x40; `WithBlinkAsWrittenWrong` exhibits the wrong byte |
| Vga.WithBlink | src/video/vga.rs:84-88 | the intended `with_blink` sets the blink flag to what is asked and keeps both colours; turning blinking off agrees with the code as written |
| Vga.BlankRow | src/video/vga.rs:154-159 | a blank line is 80 cells wide |
| Vga.NewLineSpec | src/video/vga.rs:142-152 | a line break keeps a 25 by 80 screen and puts the column at 0 |
| Vga.WriteByteSpec | src/video/vga.rs:113-131 | writing a byte keeps a 25 by 80 screen |
| Vga.WriteStringSpec | src/video/vga.rs:133-140 | writing a string keeps a 25 by 80 screen |
| Vga.WriteStringLegible | src/video/vga.rs:133-140 | on a screen of printable bytes, whatever string is written, every cell still holds printable ASCII or the 0xFE square |
| Vga.WriteLine | src/video/vga.rs:113-131 | printable bytes written from the start of the bottom line land there in order, the lines above unchanged |
| Vga.PrintlnOutput | src/video/vga.rs:227-238 | after a line break, a line of printable bytes and a line break, the line second from the bottom holds that line |
| Vga.StringAppend | src/video/vga.rs:133-140 | writing two strings one after the other is writing their concatenation |
| Vga.Writer.constructor | src/video/vga.rs:7-11 | the writer starts at column 0, white on black without blinking, over the 25 by 80 text buffer |
| Vga.Writer.Screen | src/video/vga.rs:98-104 | the buffer is 25 lines of 80 cells |
| Vga.Writer.MoveCursor | src/video/vga.rs:185-197 | moving the cursor panics exactly when the position is off the screen |
| Vga.Writer.ClearRow | src/video/vga.rs:154-159 | an on-screen line becomes spaces in the current style; any other row panics and changes nothing |
| Vga.Writer.NewLine | src/video/vga.rs:142-152 | the screen and column become those of the line break, and it never panics |
| Vga.Writer.SetCell | src/video/vga.rs:126 | exactly one cell of the buffer changes |
| Vga.Writer.WriteByte | src/video/vga.rs:113-131 | the screen and column become those of writing the byte, and the cursor check never fails |
| Vga.Writer.WriteString | src/video/vga.rs:133-140 | the screen and column become those of writing the string, and it never panics |
| Runner.DebugExitStatus | runner/src/main.rs:114 | the status QEMU's debug-exit device gives for a value is always odd |
| Runner.TestExitStatus | runner/src/main.rs:106-150 | defines the runner's status in test mode from QEMU's exit code; `TestExitMeaning` states it |
| Runner.TestExitMeaning | runner/src/main.rs:106-150 | the test-mode status is 33 for success; the runner's status is 0 exactly when QEMU exits with 33 (the success value through the debug-exit port) or with 0; a killed QEMU gives -1; any other code is passed on |
| Runner.RunExitStatus | runner/src/main.rs:151-155 | outside test mode the runner exits with QEMU's code, and panics on the `unwrap` when QEMU was killed |
| Runner.Parent | runner/src/main.rs:75 | a path has a parent exactly when it is not the root, and the parent plus the last component is the path |
| Runner.FileName | runner/src/main.rs:76-78 | a path has a file name exactly when it is not the root |
| Runner.TestMode | runner/src/main.rs:74-82 | defines the test-mode decision from the kernel binary's path, with the `unwrap` panics; `TestModeMeaning` states it |
| Runner.TestModeMeaning | runner/src/main.rs:74-82 | the runner panics for a binary at the root or directly under it; otherwise it is in test mode exactly when the binary's directory starts with `rustdoctest` or is `deps` |
| Runner.Pieces | runner/src/main.rs:122-123 | splitting gives at least one piece |
| Runner.Kept | runner/src/main.rs:122-125 | the kept bytes are no more than the buffer and hold no dropped byte |
| Runner.ConcatAppend | runner/src/main.rs:122-125 | joining two lists of pieces is joining each and concatenating |
| Runner.ConcatFrom | runner/src/main.rs:122-125 | the pieces from `k` on join to piece `k` followed by the rest |
| Runner.KeptFrom | runner/src/main.rs:133-144 | the kept bytes of the chunks from `k` on are those of chunk `k` followed by those of the rest |
| Runner.PiecesMeaning | runner/src/main.rs:122-125 | writing every piece writes the kept bytes in order; no piece holds a dropped byte; there is one piece more than dropped bytes |
| Runner.KeptAppend | runner/src/main.rs:133-144 | filtering commutes with cutting the stream: the kept bytes of two chunks are those of each, in order |
| Runner.PrintableFilter.constructor | runner/src/main.rs:135-141 | a new filter has written nothing |
| Runner.PrintableFilter.Write | runner/src/main.rs:121-128 | `write` appends the buffer's kept bytes to the output and reports the whole buffer consumed |
| Runner.PrintableFilter.Copy | runner/src/main.rs:133-144 | `io::copy` through the filter appends the kept bytes of the whole stream, however it was cut into chunks |

## Left out

- Inline and naked assembly, the register shuffles around `syscall`/`sysretq`, and the context switch. The trap is one abstract step from the register file to the register file, or from a request to an answer.
- The kernel-side glue between the saved registers and `SyscallOp::new` is not part of this model. `KernelSyscall` takes the opcode as rax modulo 2^32, the arguments as rdi, rsi, rdx and r8, and returns the status in rax.
- The `SYS_*` numbers come from a header that is not part of this model. `KernelSyscall.SysNumbers` is a parameter whose only requirement is that the five numbers are distinct.
- The `SleepMs` and `Exit` branches of both dispatchers, because they hand processes between the CPU and the executor with interrupts disabled. The keyboard scancode stream is also left out: the code `GetKbdCode` returns is a parameter.
- Non-returning loops (`abort`, `exit`, the panic handlers, `_start`) are observed for any given number of turns: the model proves that no turn traps again and that the trace after any number of turns is the same.
- MSR, CR, PIC, APIC and port I/O, including the VGA cursor ports: `Vga.Writer.MoveCursor` keeps only the bounds assertion. The QEMU exit ports are left out too.
- Page tables:
  - the page-table walk of `get_page_table`: only its address arithmetic is modelled;
  - `map_to`, `unmap` and frame allocation in `exec.rs`, `process/executor.rs` and `init_heap`: the page table is a map from page to frame, and frames handed out are a parameter.
- Exec: the `transmute`s and the `trapret` stub address are left out. `Exec.KernelStackLayout` places the stub's address as a parameter.
- BootFrames: the three `BootInfoFrameAllocator` variants are one model over a common region list; each variant's memory-map entry is converted to that list.
- Heap.AlignUp: requires `align > 0`. The source divides by `align` and would panic on 0, and every caller passes a page size.
- LibcString routines: they require `len < 2^32`, because their loop counters are `unsigned int` and a longer length would wrap the counter. The C pointers are indices into one byte array.
- The debug-build overflow checks of integer arithmetic are modelled as panics only where the modelled sizes can reach them. Elsewhere the values are unbounded integers. The modelled checks are:
  - `GfxRectangle::blank`'s `width * height`, and `blit`'s `i32` subtractions `xstart - coords.0` and additions `coords + size` (`Framebuffer.Clipping`);
  - `wait_n_ticks`' addition;
  - the subtractions of `scroll_down` and of the glyph closures;
  - the `u64` addition of `phys_to_virt` (`BootFrames.PhysToVirt`);
  - `start + code.len()`, `align_up` and `code.len() - code_offset` of the segment loop (`Exec.SegmentPages`);
  - the additions of `kernel_code_offset` and the symbol walk (`Unwind.KernelCodeOffset`, `Unwind.FindFrom`, `Unwind.LookupSymbol`);
  - the manager's `remaining -= frame.size()` (`BuddyManager.ManagerAlloc`).
- Task and Timer: the mutexes, atomics, `Arc`s and interrupt interleavings are sequential state. A future is opaque; what polling it does is a parameter.
- Logging: the log queue's atomics and once-cell are sequential state. A record's `format_args!` arguments arrive already rendered as a string.
- Unwind: `SymbolFinder::new`, which walks a raw ELF image in memory, and `unwind_by_rbp`, which follows frame pointers through raw memory. The symbol and string tables are given as values.
- Font: the embedded font file and the lazily built `GLYPH_MAP` are replaced by an arbitrary byte sequence, and the consoles take the font as a constructor argument.
- LegacyVesa: the older kernel's font module is not part of this model, so its console takes the glyph size, the bitmaps and the character-to-glyph function as arguments.
- Console: `scroll_down` has an empty body in `kernel/src/video/console.rs`, so the console's row only grows; `Console.CursorStaysInRow` states exactly that.
- Vesa: `kernel/src/video/vesa.rs` is not compiled into the kernel, because its module declaration is commented out. The file is modelled all the same.
- Vesa.ScrollMeaning: states the colour bytes of every pixel after a scroll, but not the pixels' fourth (padding) bytes. `draw_pixel` never writes those bytes.
- Console, Vesa and LegacyVesa constructors: require glyphs at least one pixel wide and high, because `new` divides the screen size by them.
- Vga: the model keeps the style as a `bv8`, on which `Style::from_byte` and `as_byte` are the identity. `enable_cursor` and `disable_cursor` are port I/O only. Reads and writes of `ScreenChar` through `Volatile` are plain array accesses.
- Runner:
  - paths are sequences of components, so the non-UTF-8 path case of `to_str().unwrap()` is not modelled;
  - building the disk image and spawning QEMU are left out, and QEMU's exit code is a parameter;
  - `PrintableFilter` models a `write_all` that always succeeds, and leaves out `flush`.
- Rows marked "corrected:" under "## Model" state the behaviour of the corrected definitions from "## Findings", not the source as written. They are `BuddyManager.Created`, `BuddyManager.FromMmapSpec`, `BuddyManager.CreatedSound`, `BuddyManager.FromMmapSound`, `BuddyManager.AllocatorsSound`, `BuddyManager.BuddyAllocatorManager.FromMmap`, the Exec page-loop rows from `Exec.Chunk` to `Exec.CreateProcessFromElf`, and the ProcessExecutor rows built on `UnmapProcess`. The as-written members beside them exhibit each difference.
- Exec: the kernel-half page-table entries that `Space::new` copies into each new address space are not modelled. A segment sign-extended into the upper half by `VirtAddr::new` is mapped as fresh pages, where the real `map_to` may meet the kernel's entries.
- Exec: `step_by` over `VirtAddr` skips the non-canonical hole. The model follows that skip only as far as the underflow it causes for a lower-half segment running past 2^47 (`Exec.SegmentPages`).
- Exec: the alignment check of `ProgramHeader::slice_from_bytes_len` is not modelled. The model treats the header table as always aligned, so that `unwrap` never panics.
- Font.Decode2: `char::from_u32_unchecked` on a surrogate or a value above 0x10FFFF is undefined behaviour in the source. The model maps such a value like any other, as a number below 2^21.
- Files the source comments out entirely (`kernel/src/acpi.rs`, `kernel/src/process/mod.rs`), bootloader glue, host build tools, floating-point background gradients and test harness files.

## Findings

| source | as written | input that shows it | evidently intended | confidence | as-written member | corrected member |
|---|---|---|---|---|---|---|
| kernel/src/arch/x86_64/memory/frame_allocator/buddy.rs:123-124 | `dealloc_range(bitmap_pages..bitmap_len, 0)` uses the bitmap's length in bytes as a page index | a one-page region: the range `1..1` frees the top bit twice and the unwrap of `DoubleFree` panics; in a 1000-page region page 999 is never freed | free every page from `bitmap_pages` to the region's page count, and count `remaining` from those pages | not executed | BuddyRegion.NewAsWritten, BuddyRegion.NewAsWrittenOnePage, BuddyRegion.NewAsWrittenStrandsPages | BuddyRegion.NewRegion, BuddyRegion.NewRegionSound |
| kernel/src/arch/x86_64/memory/frame_allocator/buddy.rs:73-81 | the loop never returns after a successful deallocation, so it always reaches the `panic!` | any frame the manager handed out, given back | return after the allocator that contains the frame has taken it | not executed | BuddyManager.DeallocAsWritten, BuddyManager.DeallocAsWrittenPanics | BuddyManager.DeallocFrom, BuddyManager.DeallocFromSound |
| kernel/src/process/exec.rs:84-119 | `target_len` is bounded by 4096 only, not by the room left on the page after `target_offset` | a 4096-byte segment loaded at 0x40_1001: the slice of its first page, 0x40_1000, runs past the page | bound `target_len` by `4096 - target_offset` | not executed | Exec.ChunkAsWritten, Exec.ChunkAsWrittenPanics, Exec.UnalignedSegmentPanics | Exec.Chunk, Exec.ChunkContent |
| kernel/src/process/executor.rs:49-55 | `unmap_current_process` unmaps only `code_len` code pages and no stack page, so the next `map_to` of the stack page finds it still mapped | one process with one code frame at 0x20_0000 and one stack frame at 0x30_0000: `next_process` panics | unmap every code and stack page that `map_current_process` mapped | not executed | ProcessExecutor.UnmapAsWritten, ProcessExecutor.NextAsWritten, ProcessExecutor.NextAsWrittenPanics, ProcessExecutor.SingleProcessPanics | ProcessExecutor.UnmapProcess, ProcessExecutor.UnmapUndoesMap |
| src/video/vga.rs:84-88 | `with_blink(true)` ORs in `0b1000_000` (0x40, the top background bit) instead of 0x80 | `from_colors(White, Black, false).with_blink(true)` gives 0x4F: white on red, not blinking | set bit 7 to the flag and keep bits 0 to 6 | not executed | Vga.WithBlinkAsWritten, Vga.WithBlinkAsWrittenWrong | Vga.WithBlink |
