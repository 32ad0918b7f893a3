# A verified model of four pieces of the RPCS3 emulation core

This project models in Dafny four pieces of RPCS3's emulation core and proves properties about them:

- **The HLE module registry** (`Modules` and `FunctionIds`). A `Module` is a loadable bundle of host implementations of guest library functions. `Load()` activates every exported function record in the process-wide dispatch table. `UnLoad()` deactivates them. `Load(id)` and `UnLoad(id)` do the same for a single function id, and `CheckID` validates a kernel-object handle by its name tag. A function id is the first four bytes of SHA-1(name + a fixed 16-byte suffix), read as a little-endian `u32`.
- **The bounded memory stream** (`MemoryStream`). `vfsStreamMemory` reads and writes the guest range `[addr, addr + size)`. A size of 0 means unbounded (`~0ULL`). Each transfer is cut to what remains of the range. A copy that guest memory refuses transfers nothing and leaves the position where it was.
- **The 128-bit unions `u128` and `s128`** (`Lanes`, `UInt128`, `SInt128`). Each is sixteen bytes seen as 64-, 32-, 16- and 8-bit lanes in little-endian (x86) layout. The model covers equality, truth, the narrowing conversions and the `From32`/`From64` constructors. The constructors write the lanes in source order.
- **Raw SPU register addresses** (`RawSpu`). The aperture address is `stride * num + base + probOffset + offset`, computed modulo 2^32.

The module's state and the emulator state it changes are modelled imperatively. `Module` is a class with the source's six fields. `Emulator` is a class that plays the role of the global `Emu`: it holds the module manager's dispatch table and registrations, the id manager's name tags, and a trace of the host callbacks that have run. `Load()` and `UnLoad()` are loops over the function list. Each loop is proved against a specification function: `AddAll` folds the manager's `AddFunc` over the list, and `UnLoad()` subtracts `Ids(funcs)` from the table. Lemmas about those functions give the properties: what becomes active, first record wins, idempotence, and unload-after-load. The stream is a class with `addr`, `size` and the inherited position `pos`. It works over a `GuestMemory` object (a byte map). `Read` copies into a caller's `array`. The unions, the function id and the SPU addresses are pure functions.

Collaborators whose code is not part of this model are stated as assumptions:

- `ModuleManager::AddFunc` adds a record only when its id is not already active. `UnloadFunc` removes the id and reports whether it was active. `IsLoadedFunc` tests whether an id is active.
- `IdManager::CheckID` means the id is live.
- SHA-1 is a parameter. Its only property is that it returns 20 bytes.
- The CPU manager's thread-number lookup is a parameter.
- `RAW_SPU_OFFSET`, `RAW_SPU_BASE_ADDR` and `RAW_SPU_PROB_OFFSET` are fields of a `Layout` value.
- The base `vfsStream` constructor and its `Reset` set the position to 0. Its `Read`/`Write` advance the position by the count, modulo 2^64, and return the count.
- `Memory.CopyToReal`/`CopyFromReal` succeed exactly when the whole range is backed and lies below 2^64. A successful copy copies every byte. A failed copy changes nothing.

Source behaviours worth knowing, all modelled as written:

- The clamp guard `Tell() + size > GetSize()` in `vfsStreamMemory::Read`/`Write` and the new count `GetSize() - Tell()` are evaluated in `u64`. When the sum wraps, the clamp is skipped (`ClampSkippedOnWrap`). When the position is past the end, the "clamp" enlarges the count to `GetSize() - Tell() + 2^64` (`ClampGrowsPastEnd`, see Findings). The end-of-range bound is therefore proved for positions within the size and requests with `Tell() + count < 2^64`. `Read` and `Write` are specified for every position.
- `u128::From64` puts `src` into `lo`, but `operator u64` reads `hi`.
- `s128::From32` overwrites `src` and leaves `lo` uninitialised (see Findings).

## Model

| member | source | states |
|---|---|---|
| `FunctionIds.CStrLen` | rpcs3/Emu/SysCalls/Modules.cpp:12 | the length a `const char*` operand contributes: the bytes before the first NUL, all of them if there is none |
| `FunctionIds.SuffixHasNoNul` | rpcs3/Emu/SysCalls/Modules.cpp:11 | the suffix literal has 16 bytes and none is NUL |
| `FunctionIds.HashInput` | rpcs3/Emu/SysCalls/Modules.cpp:11-12 | `name + suffix`, built as a C-string append, is exactly the name's bytes followed by all 16 suffix bytes, length \|name\|+16 |
| `FunctionIds.HashInputInjective` | rpcs3/Emu/SysCalls/Modules.cpp:12 | distinct names give distinct hash inputs, and equal names give equal inputs |
| `FunctionIds.GetFunctionId` | rpcs3/Emu/SysCalls/Modules.cpp:9-17 | the id's 4-byte little-endian encoding is the first four bytes of SHA-1(name + suffix) |
| `FunctionIds.SameIdIffSameDigestPrefix` | rpcs3/Emu/SysCalls/Modules.cpp:15-16 | two names get the same id exactly when their digests agree in the first four bytes |
| `Modules.FirstIndex` | rpcs3/Emu/SysCalls/Modules.cpp:119-126 | the index found is the first record in the list whose id matches |
| `Modules.AddAllLookup` | rpcs3/Emu/SysCalls/Modules.cpp:92-95 | after adding the list in order, an id is active iff it was active or is in the list; an active id keeps its handler; a newly active id gets the first list record with that id |
| `Modules.AddAllKeys` | rpcs3/Emu/SysCalls/Modules.cpp:92-95 | the active ids after adding the list are exactly the old ids plus the list's ids, so every export is resolvable |
| `Modules.AddAllIdempotent` | rpcs3/Emu/SysCalls/Modules.cpp:85-97 | adding the list a second time leaves the table unchanged |
| `Modules.AddAllOfActive` | rpcs3/Emu/SysCalls/Modules.cpp:92-95 | adding records whose ids are all active changes nothing (at most one handler per id) |
| `Modules.UnloadAfterLoad` | rpcs3/Emu/SysCalls/Modules.cpp:100-112 | unloading after loading leaves the original table minus the module's ids |
| `Modules.CallsOf` | rpcs3/Emu/SysCalls/Modules.cpp:90 | a null callback pointer makes no call; a non-null one makes exactly one |
| `Modules.Emulator.AddFunc` | rpcs3/Emu/SysCalls/Modules.cpp:94 | (manager, assumed) the table becomes `TableAdd(old table, f)`: f is added unless its id is active; nothing else changes |
| `Modules.Emulator.UnloadFunc` | rpcs3/Emu/SysCalls/Modules.cpp:109 | (manager, assumed) removes the id and returns whether it was active; nothing else changes |
| `Modules.Emulator.SetModule` | rpcs3/Emu/SysCalls/Modules.cpp:26 | (manager, assumed) appends one registration (id, module, with-init flag); nothing else changes |
| `Modules.Emulator.Invoke` | rpcs3/Emu/SysCalls/Modules.cpp:90 | runs a callback only when the pointer is not null, and records it in the trace |
| `Modules.Module.constructor` | rpcs3/Emu/SysCalls/Modules.cpp:19-27 | unloaded, given id and name, no callbacks, no functions; registers itself with with-init false; no callback runs |
| `Modules.Module.Named` | rpcs3/Emu/SysCalls/Modules.cpp:29-38 | id -1 (0xFFFF as u16), the given name and callbacks; registers with with-init = (init non-null), then runs init if non-null |
| `Modules.Module.Numbered` | rpcs3/Emu/SysCalls/Modules.cpp:40-48 | the given id, an empty name and the given callbacks; registers, then runs init if non-null |
| `Modules.Module.Move` | rpcs3/Emu/SysCalls/Modules.cpp:50-62 | the new module takes all six fields of the source; the source is left with id 0, unloaded, null callbacks, empty name, empty list |
| `Modules.Module.MoveAssign` | rpcs3/Emu/SysCalls/Modules.cpp:64-73 | all six fields are swapped between the two modules |
| `Modules.Module.Load` | rpcs3/Emu/SysCalls/Modules.cpp:85-98 | a loaded module: no callback, table unchanged, still loaded; otherwise the load callback runs (if set), the table becomes `AddAll(old table, funcs)`, and the module is loaded |
| `Modules.Module.UnLoad` | rpcs3/Emu/SysCalls/Modules.cpp:100-113 | an unloaded module: nothing happens; otherwise the unload callback runs (if set), every owned id leaves the table, and the module is unloaded |
| `Modules.Module.LoadId` | rpcs3/Emu/SysCalls/Modules.cpp:115-129 | an active id: false, nothing changes; otherwise true iff the module owns the id, adding exactly the first owned record with it; the loaded flag is never touched |
| `Modules.Module.UnLoadId` | rpcs3/Emu/SysCalls/Modules.cpp:131-134 | returns the manager's removal result (was the id active); the id is inactive afterwards; the module is untouched |
| `Modules.Module.SetLoaded` | rpcs3/Emu/SysCalls/Modules.cpp:136-139 | sets only the loaded flag |
| `Modules.Module.SetName` | rpcs3/Emu/SysCalls/Modules.cpp:156-159 | sets only the name |
| `Modules.Module.CheckIDRef` | rpcs3/Emu/SysCalls/Modules.cpp:220-223 | the same verdict as `CheckID`; the out-reference gets the id's entry whenever the id is live, even on a name mismatch, and is left as it was otherwise |
| `Modules.CheckIDExclusive` | rpcs3/Emu/SysCalls/Modules.cpp:215-218 | a module accepts exactly the live handles tagged with its name; a handle it accepts is refused by every module with another name and accepted by every module with the same name |
| `Modules.LoadTwice` | rpcs3/Emu/SysCalls/Modules.cpp:85-88 | two `Load()` calls have the same effect as one: same table, same callbacks run |
| `Modules.LoadThenUnLoad` | rpcs3/Emu/SysCalls/Modules.cpp:85-113 | `Load()` then `UnLoad()` on an unloaded module runs the load and unload callbacks and leaves the old table minus the module's ids |
| `MemoryStream.OpenedSize` | rpcs3/Emu/FS/vfsStreamMemory.cpp:18 | a nonzero size is kept; a size of 0 becomes 2^64-1 (never 0) |
| `MemoryStream.StreamMemory.Empty` | rpcs3/Emu/FS/vfsStreamMemory.cpp:6-8 | only the base stream is set up: position 0 |
| `MemoryStream.StreamMemory.constructor` | rpcs3/Emu/FS/vfsStreamMemory.cpp:10-13 | the same state as `Open(addr, size)` |
| `MemoryStream.StreamMemory.Open` | rpcs3/Emu/FS/vfsStreamMemory.cpp:15-21 | stores the address and the opened size, and resets the position to 0 |
| `MemoryStream.Clamp` | rpcs3/Emu/FS/vfsStreamMemory.cpp:30-33 | from a position within the size: the count never grows, the next position stays within the size, and with no u64 wrap of the guard the transfer ends at or before the end, is cut only to end exactly there, and is 0 at the end; past the end with the guard taken, the count becomes size - pos + 2^64 |
| `MemoryStream.ClampSkippedOnWrap` | rpcs3/Emu/FS/vfsStreamMemory.cpp:30 | when `Tell()+count` wraps in u64, the count is not clamped (position 1, size 100, count 2^64-1) |
| `MemoryStream.ClampGrowsPastEnd` | rpcs3/Emu/FS/vfsStreamMemory.cpp:30-33 | at position 10 of a 5-byte stream a 1-byte request becomes a (2^64-5)-byte one |
| `MemoryStream.ClampIntended` | rpcs3/Emu/FS/vfsStreamMemory.cpp:30-33 | corrected: never more than requested, 0 at or past the end, otherwise ends at or before the end and is cut only to end exactly there |
| `MemoryStream.ClampAgreesWithoutWrap` | rpcs3/Emu/FS/vfsStreamMemory.cpp:30-33 | from a position within the size and with no wrap, the source's clamp equals the corrected one |
| `MemoryStream.StreamMemory.Advance` | rpcs3/Emu/FS/vfsStreamMemory.cpp:41 | (base stream, assumed) the position moves by the count and the count is returned |
| `MemoryStream.GuestMemory.CopyFromReal` | rpcs3/Emu/FS/vfsStreamMemory.cpp:35 | (memory, assumed) succeeds iff the range is mapped, and then stores exactly the first n bytes of the source there |
| `MemoryStream.GuestMemory.CopyToReal` | rpcs3/Emu/FS/vfsStreamMemory.cpp:52 | (memory, assumed) succeeds iff the range is mapped, and then fills exactly the first n bytes of the destination |
| `MemoryStream.StreamMemory.Write` | rpcs3/Emu/FS/vfsStreamMemory.cpp:28-43 | from any position, copies the clamped count to `addr + Tell()` (u64); a refused copy returns 0 and leaves position and memory unchanged; otherwise it returns the clamped count and the position advances by it; a position within the size stays within it; the source buffer must hold the clamped count |
| `MemoryStream.StreamMemory.Read` | rpcs3/Emu/FS/vfsStreamMemory.cpp:45-60 | mirrors `Write` from any position: the clamped count of guest bytes at `addr + Tell()` land in the buffer; a refused copy returns 0 and leaves position and buffer unchanged; the buffer must hold the clamped count |
| `MemoryStream.LoadAfterStore` | rpcs3/Emu/FS/vfsStreamMemory.cpp:35-52 | bytes stored at an address read back unchanged from it |
| `UInt128.ToU64` | rpcs3/stdafx.h:45 | `operator u64` is the low 64 bits of the 128-bit little-endian value |
| `UInt128.ToU32` | rpcs3/stdafx.h:46 | `operator u32` is the low 32 bits of `hi` |
| `UInt128.ToU16` | rpcs3/stdafx.h:47 | `operator u16` is the low 16 bits of `hi` |
| `UInt128.ToU8` | rpcs3/stdafx.h:48 | `operator u8` is the low 8 bits of `hi` |
| `UInt128.ToBool` | rpcs3/stdafx.h:50 | false iff all sixteen bytes are zero |
| `UInt128.Equal` | rpcs3/stdafx.h:68-71 | comparing `lo` and `hi` is equality of the whole value |
| `UInt128.NotEqual` | rpcs3/stdafx.h:73-76 | the exact negation of `==` |
| `UInt128.From64` | rpcs3/stdafx.h:52-56 | `hi` = 0 and `lo` = src, so converting back to u64 gives 0 |
| `UInt128.From64DoesNotRoundTrip` | rpcs3/stdafx.h:52-56 | (u64)From64(1) is not 1 |
| `UInt128.From64Intended` | rpcs3/stdafx.h:52-56 | corrected: converting back to u64 gives src, and to u32 gives its low 32 bits |
| `UInt128.From32` | rpcs3/stdafx.h:58-66 | lane `_u32[0]` is src and lanes 1 to 3 are 0 |
| `UInt128.From32Determined` | rpcs3/stdafx.h:58-66 | the result does not depend on the uninitialised storage |
| `UInt128.From32RoundTrip` | rpcs3/stdafx.h:58-66 | the 128-bit value is src; converting back to u32 gives src; the value is true iff src is nonzero |
| `SInt128.ToS64` | rpcs3/stdafx.h:92 | `operator s64` is congruent mod 2^64 to the 128-bit little-endian value: its low 64 bits in two's complement |
| `SInt128.ToS32` | rpcs3/stdafx.h:93 | `operator s32` is congruent mod 2^32 to the low bits of `_i64[0]` |
| `SInt128.ToS16` | rpcs3/stdafx.h:94 | `operator s16` is congruent mod 2^16 to the low bits of `_i64[0]` |
| `SInt128.ToS8` | rpcs3/stdafx.h:95 | `operator s8` is congruent mod 2^8 to the low bits of `_i64[0]` |
| `SInt128.ToBool` | rpcs3/stdafx.h:97 | false iff all sixteen bytes are zero |
| `SInt128.Equal` | rpcs3/stdafx.h:114-117 | comparing the signed `lo` and `hi` is equality of the whole value |
| `SInt128.NotEqual` | rpcs3/stdafx.h:119-122 | the exact negation of `==` |
| `SInt128.From64` | rpcs3/stdafx.h:99-103 | `hi` holds src's bits and `lo` is 0, so converting back to s64 gives src reinterpreted as signed |
| `SInt128.From32` | rpcs3/stdafx.h:105-112 | as written: `hi` ends 0, so converting to s32 gives 0; `lo` keeps the uninitialised bytes |
| `SInt128.From32DropsSource` | rpcs3/stdafx.h:105-112 | (s32)From32(1) is not 1 |
| `SInt128.From32TruthIgnoresSource` | rpcs3/stdafx.h:105-112 | whether From32(src) is true depends only on the uninitialised `lo` bytes, never on src |
| `SInt128.From32Intended` | rpcs3/stdafx.h:105-112 | corrected: converting back to s32 gives src as signed; the other lanes are 0; true iff src is nonzero |
| `RawSpu.NextUnitIsOneStride` | rpcs3/Emu/Cell/RawSPUThread.h:5-8 | unit num+1's address is unit num's plus the stride, mod 2^32 |
| `RawSpu.OffsetShiftsAddress` | rpcs3/Emu/Cell/RawSPUThread.h:5-8 | moving the offset by d moves the address by d, mod 2^32 |
| `RawSpu.DecodeRegAddr` | rpcs3/Emu/Cell/RawSPUThread.h:5-8 | with the offset below the stride and no wrap, the unit and the offset can be recovered from the address |
| `RawSpu.AperturesDisjoint` | rpcs3/Emu/Cell/RawSPUThread.h:5-8 | with offsets below the stride and no wrap, distinct (unit, offset) pairs give distinct addresses |
| `RawSpu.ThreadWindowsDisjoint` | rpcs3/Emu/Cell/RawSPUThread.h:10-13 | the address by thread id is the address by unit number of that thread, so threads on different units get disjoint windows |

## Findings

| source | as written | input that shows it | evidently intended | confidence | as-written member | corrected member |
|---|---|---|---|---|---|---|
| rpcs3/stdafx.h:105-112 | `s128::From32` stores src in `_i32[0]`, then `hi = 0` overwrites it; `lo` is never assigned | src = 1: `(s32)From32(1)` is 0; src = 0 with nonzero garbage in `lo` is true | src in `_i32[0]` and every other lane 0, as `u128::From32` does | high (not executed) | `SInt128.From32`, `SInt128.From32DropsSource` | `SInt128.From32Intended` |
| rpcs3/Emu/FS/vfsStreamMemory.cpp:30-33 | the guard `Tell() + size > GetSize()` and the new count `GetSize() - Tell()` are computed in u64; past the end the subtraction wraps, and a guard sum that wraps skips the clamp | position 10, size 5, count 1: the count becomes 2^64-5; position 1, size 100, count 2^64-1: not clamped | the count cut to what remains of the range, 0 at or past the end | medium (not executed) | `MemoryStream.Clamp`, `MemoryStream.ClampGrowsPastEnd`, `MemoryStream.ClampSkippedOnWrap` | `MemoryStream.ClampIntended` |
| rpcs3/stdafx.h:52-56 | `u128::From64` initialises the struct {hi, lo} as {0, src}, while `operator u64` reads `_u64[0]`, which is `hi` | src = 1: `(u64)From64(1)` is 0 | converting `From64(src)` back to u64 gives src | medium (not executed) | `UInt128.From64`, `UInt128.From64DoesNotRoundTrip` | `UInt128.From64Intended` |

## Left out

- `Module::~Module` (rpcs3/Emu/SysCalls/Modules.cpp:75-83) unloads as `UnLoad()` does, then frees the function records. The model has no object destruction.
- `Module::Log`, `Warning` and `Error` (rpcs3/Emu/SysCalls/Modules.cpp:161-213) are left out. They format text for the log sink, gated by a global logging toggle.
- The header's template that fills `m_funcs_list` (Modules.h) is not part of this model. The constructors start with an empty list, and the moves carry lists along. Every list property is proved for an arbitrary list.
- What the init, load and unload callbacks do is left out. They are foreign code. The model records that they run, in order, and assumes they do not touch the dispatch table.
- The internals of SHA-1, the module manager, the id manager and the CPU manager are left out. They are replaced by the assumptions listed above.
- Concurrency is left out. The source serialises table updates with locks.
- `RawSPUThread`'s constructor, `Read32`, `Write32`, `InitRegs`, `GetIndex` and `Task` are left out. Only their declarations exist here, and the thread and its run/pause control are concurrency.
- The base stream's `Seek` is not part of this model. Only `Open`, `Read` and `Write` move the position here.
- `MemoryStream.StreamMemory.Read` and `MemoryStream.StreamMemory.Write`: without `Seek`, the model's position never passes the size. Both methods are still specified for a position past the end, where the count grows (Findings).
- `MemoryStream.StreamMemory.Read` and `MemoryStream.StreamMemory.Write` model the code as written, with `Clamp`. `ClampIntended` is proved separately and agrees with it within the size when nothing wraps.
- `MemoryStream.Clamp`: the end-of-range bound is stated only for a position within the size and `Tell() + count < 2^64`. Outside those bounds the source's u64 arithmetic does not bound the count (`ClampSkippedOnWrap`, `ClampGrowsPastEnd`).
- `MemoryStream.GuestMemory.CopyToReal`: a failed copy is modelled as changing nothing. The real memory manager may leave a partial copy.
- `RawSpu.AperturesDisjoint`: disjointness is stated only when the offset is below the stride and no sum wraps past 2^32. Outside those bounds, apertures of different units can overlap.
- `safe_realloc`, `safe_delete`, the `Status` enum and the commented-out SSE `u128` in stdafx.h are left out. They are memory management, an unused enum and dead code.
- Utilities/rFile.cpp and rpcs3/Ini.h are left out. They are file-system and configuration shims with no emulation logic.
