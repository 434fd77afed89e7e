# WasmEdge snapshot codec in Dafny

This project models the snapshot codec of a WasmEdge fork. The codec is the
`SerializationManager` class in `include/runtime/serializemgr.h`, and it
checkpoints a running WebAssembly instance and restores it later. The model
covers what that class does, and lemmas about the model prove the codec's
round trips and the diff-log replay.

A snapshot `N` consists of two artifacts:

- **`N.snap`** is a text archive of numbers. `save` writes three things into
  it, in this order:
  - the global table: the count, then each global's low 64 bits;
  - the control state:
    - the operand stack (the size, then each value's low 64 bits);
    - the frame-stack size;
    - Locals, Arity, VPos and the return point of every frame from index 2
      upward;
    - the program counter.
  - the memory element count `ElemNum`, which is the page count times 65536,
    or 0 without a memory.

  `load` reads the archive back in the same order. It writes into the live
  global table, the operand stack and the frame stack, and it returns the PC
  with its function.
- **`N.bin`** is the diff log of linear memory. It is a list of
  `(offset, byte)` records: the positions where the memory image differs from
  the baseline `SavedData`, which is the image kept from the previous save or
  load. The first save of a process has no baseline. It writes every non-zero
  byte. On restore, `load_memory` does four things:
  - grows the memory by `ElemNum / 65536 - MemPages` pages, rounding the
    page count down (see the second row under "## Findings");
  - replays `1.bin` to `N.bin` in order;
  - ignores records at or beyond `ElemNum`;
  - copies the replayed image into the baseline.

An instruction position is stored as a pair: its function's id (FuncId) and
its distance from that function's first instruction. To save a position,
`save_stack` builds a map from each function's first-instruction position to
its id. It then takes the entry with the greatest key not above the position.

How the model represents the codec:

- **The text archive** is a sequence of naturals (`Archive.Tokens`). A read
  that runs off the end, or that finds a number too wide for its field, is an
  error result.
- **Values** are naturals below 2^128. Positions are `u64`.
- **The function table** is the sequence of first-instruction positions,
  indexed by FuncId.
- **The memory** is a class with a page count and a byte array.
- **The codec** is a class. Its baseline is an `Option<seq<bv8>>` field.
- **Stateful operations** are methods on that class, proved against pure
  encoders and decoders. Lemmas state the round trips and the replay
  properties of those encoders and decoders.
- **`SnapShotId`** becomes a parameter: `load` takes the sequence of logs for
  snapshots 1 to N.

Two facts about the code shape the model:

- `save` writes globals, then the stack, then memory
  (include/runtime/serializemgr.h:113-118), and `load` reads them in the same
  order (120-125).
- `load_memory` replays onto the memory the module already has and never
  zeroes it (183-198).

## Model

| member | source | states |
|---|---|---|
| Scalars.SaveValue | include/runtime/serializemgr.h:374-376 | the stored number is congruent to the value modulo 2^64, and equals it when the value fits in 64 bits |
| Scalars.LoadValue | include/runtime/serializemgr.h:378-382 | the value read fits in 64 bits and saves back to the same number |
| Scalars.ValueRoundTrip | include/runtime/serializemgr.h:374-382 | a value survives save then load exactly when it is below 2^64 |
| Scalars.Truncate32 | include/runtime/serializemgr.h:255-256 | a size stored as `uint32_t` is congruent to it modulo 2^32, never larger, and unchanged below 2^32 |
| Scalars.Wrap64 | include/runtime/serializemgr.h:171-172 | a `uint64_t` product is congruent to the exact one modulo 2^64, never larger, and exact below 2^64 |
| Archive.ReadField | include/runtime/serializemgr.h:55-58 | a field read succeeds exactly when a number is present and fits the field, consuming that one number; an empty archive is Truncated |
| Archive.EncodeValues | include/runtime/serializemgr.h:257-258 | the `save_value` loop writes one number per value, each below 2^64 |
| Archive.DecodeValues | include/runtime/serializemgr.h:313-315 | n successive value reads consume exactly n numbers and append n values |
| Archive.LowBits | include/runtime/serializemgr.h:374-382 | saving and loading keeps the length and leaves every value below 2^64 |
| Archive.LowBitsCongruent | include/runtime/serializemgr.h:374-375 | each value comes back congruent to the original modulo 2^64 |
| Archive.LowBitsKeepsNarrow | include/runtime/serializemgr.h:374-382 | values that already fit in 64 bits come back unchanged |
| Archive.ValuesRoundTrip | include/runtime/serializemgr.h:257-258 | values written and read back come out as their low 64 bits, in order, and leave the rest of the archive unread |
| PointerResolver.BuildFuncMap | include/runtime/serializemgr.h:267-276 | the filled map's keys are exactly the start positions, each mapped to the last FuncId with that start |
| PointerResolver.FloorEntry | include/runtime/serializemgr.h:285-287 | `upper_bound` then `--` gives none exactly when every key is above p, and otherwise the greatest key not above p with its FuncId |
| PointerResolver.Resolve | include/runtime/serializemgr.h:285-288 | a resolved FuncId is in the table, and its function starts at or before p |
| PointerResolver.ResolveIsGreatestStart | include/runtime/serializemgr.h:285-296 | resolution fails exactly when every function starts after p; otherwise it picks the greatest start not above p, the last FuncId with it on a tie |
| PointerResolver.FloorEntryResolves | include/runtime/serializemgr.h:300-303 | the map lookup agrees with `Resolve` for every position |
| PointerResolver.SavePointer | include/runtime/serializemgr.h:353-356 | the stored pair is the FuncId and the distance that, added to the function's start, gives p |
| PointerResolver.LoadPointer | include/runtime/serializemgr.h:366-372 | a pair is loadable exactly when its FuncId is in the table, giving start plus offset when that fits in 64 bits |
| PointerResolver.PointerRoundTrip | include/runtime/serializemgr.h:353-372 | loading a saved resolved position gives the position back |
| PointerResolver.StartResolvesToItself | include/runtime/serializemgr.h:267-271 | with distinct starts, a function's first instruction resolves to that function |
| PointerResolver.ResolveWithinFunction | include/runtime/serializemgr.h:285-288 | with functions in disjoint ranges, every position inside a function resolves to it |
| ControlState.EncodePointer | include/runtime/serializemgr.h:300-306 | a position is written, as two numbers, exactly when some function starts at or before it |
| ControlState.DecodePointer | include/runtime/serializemgr.h:358-364 | a successful read consumes two numbers and yields a FuncId in the table |
| ControlState.PointerTokensRoundTrip | include/runtime/serializemgr.h:353-364 | a written position reads back as the same position with its FuncId, leaving the rest unread |
| ControlState.EncodeFrame | include/runtime/serializemgr.h:281-297 | a frame is written, as five numbers, exactly when its return point resolves |
| ControlState.DecodeFrame | include/runtime/serializemgr.h:328-330 | reading a frame consumes exactly five numbers: Locals, Arity, VPos and the return point's pair |
| ControlState.FrameRoundTrip | include/runtime/serializemgr.h:282-288 | a written frame reads back as the same Locals, Arity, VPos and return point |
| ControlState.EncodeFrames | include/runtime/serializemgr.h:280-298 | the frame loop writes five numbers per frame, or fails at the index of a frame in the list |
| ControlState.EncodeFramesFails | include/runtime/serializemgr.h:280-298 | writing frames fails exactly when some return point lies before every function, and names the first such frame |
| ControlState.EncodeFramesFirstFailure | include/runtime/serializemgr.h:295-297 | writing stops at the first unresolvable frame, whatever follows it |
| ControlState.DecodeFrames | include/runtime/serializemgr.h:323-332 | n frame reads push exactly n frames after those already pushed and keep those |
| ControlState.FramesRoundTrip | include/runtime/serializemgr.h:323-332 | frames written in order are pushed back in the same bottom-to-top order |
| ControlState.PersistedFrames | include/runtime/serializemgr.h:278-280 | the frames saved are those from index 2 up, none when there are at most two |
| ControlState.FramesToLoad | include/runtime/serializemgr.h:323 | the `i = 2 .. StackSize` loop runs no iteration for a count of at most two, and count minus two iterations otherwise |
| ControlState.EncodeStack | include/runtime/serializemgr.h:254-307 | a successful `save_stack` writes the operand-stack size first, the frame count right after the values, and two numbers for the PC: 1 + n + 1 + 5 per persisted frame + 2 numbers |
| ControlState.SaveStackFails | include/runtime/serializemgr.h:285-306 | `save_stack` throws exactly when a persisted return point or the PC is unresolvable; frame errors come first and name the frame's index |
| ControlState.DecodeStack | include/runtime/serializemgr.h:309-335 | a successful read yields a PC whose FuncId is in the table |
| ControlState.StackRoundTrip | include/runtime/serializemgr.h:254-335 | the control state reads back as the operand stack's low 64 bits, frames 2 and up in order, and the PC with its function |
| GlobalState.EncodeGlobals | include/runtime/serializemgr.h:337-343 | `save_global` writes the 32-bit global count first, then one number per global |
| GlobalState.DecodeGlobals | include/runtime/serializemgr.h:345-351 | a successful read never yields more globals than the module has |
| GlobalState.GlobalsRoundTrip | include/runtime/serializemgr.h:337-351 | globals read back into a module with at least as many come out as their low 64 bits, in declaration order |
| GlobalState.GlobalsMismatch | include/runtime/serializemgr.h:347-349 | a recorded count above the module's number of globals is refused |
| DiffLog.Emits | include/runtime/serializemgr.h:218-219 | without a baseline a position is written exactly when its byte is non-zero; within a baseline, exactly when its byte differs from the baseline's |
| DiffLog.EmitsIffChanged | include/runtime/serializemgr.h:218-219 | a position is written exactly when its byte differs from the baseline's, or is non-zero without a baseline |
| DiffLog.DiffUpTo | include/runtime/serializemgr.h:217-225 | the loop writes at most one record per position |
| DiffLog.DiffUpToExact | include/runtime/serializemgr.h:217-225 | the log holds exactly the changed positions, each with the current byte, in strictly increasing offset order |
| DiffLog.Diff | include/runtime/serializemgr.h:217-225 | every record of the log names a position of the image with its current byte, and without a baseline no record holds a zero byte |
| DiffLog.FirstSaveIsSparse | include/runtime/serializemgr.h:218-219 | without a baseline the log is empty exactly when the image is all zero |
| DiffLog.NextBaseline | include/runtime/serializemgr.h:227-233 | the new baseline is a copy of the image, or absent for an empty image |
| DiffLog.ApplyChange | include/runtime/serializemgr.h:247-249 | applying one record keeps the image's length |
| DiffLog.Apply | include/runtime/serializemgr.h:245-250 | replaying a log keeps the image's length |
| DiffLog.ApplyKeeps | include/runtime/serializemgr.h:245-250 | a byte no in-range record names, or one at or beyond elemNum, is unchanged |
| DiffLog.ApplyLastWins | include/runtime/serializemgr.h:245-250 | a position named by in-range records takes the last such record's byte |
| DiffLog.SaveLogs | include/runtime/serializemgr.h:204-235 | a run of saves writes one log per save |
| DiffLog.ReplayAll | include/runtime/serializemgr.h:196-198 | replaying logs keeps the image's length |
| DiffLog.DiffUpToRestores | include/runtime/serializemgr.h:217-225 | applying the first n records of a diff to the baseline's bytes brings positions below n up to date and touches nothing else |
| DiffLog.DiffRestores | include/runtime/serializemgr.h:217-250 | applying the diff of baseline to current onto the baseline's bytes yields current, with the rest of the image unchanged |
| DiffLog.ReplayNext | include/runtime/serializemgr.h:196-198 | when earlier logs rebuild the previous image, one more log moves the memory to the next image |
| DiffLog.CumulativeReplay | include/runtime/serializemgr.h:196-198 | replaying logs 1 to k of a run of saves onto zeroed memory reproduces image k, with zeros behind it |
| DiffLog.DiffUpToAsWritten | include/runtime/serializemgr.h:217-225 | the loop as written fails only by reading a baseline shorter than the positions it visits, and otherwise writes at most one record per position |
| DiffLog.AsWrittenAgreesWithinBaseline | include/runtime/serializemgr.h:217-225 | where the baseline covers the image, the loop as written writes the same log as the corrected one |
| DiffLog.AsWrittenReadsPastBaseline | include/runtime/serializemgr.h:218 | once memory has grown since the last save, the loop as written reads `SavedData` past its end |
| Memory.PagesFor | include/runtime/serializemgr.h:193 | the fewest pages holding elemNum bytes |
| Memory.GrowthAsWritten | include/runtime/serializemgr.h:193-194 | the growth as written never takes the memory past the recorded count, and adds nothing unless the count reaches a whole page beyond the current ones |
| Memory.Growth | include/runtime/serializemgr.h:193-195 | the grown memory holds elemNum bytes with no page to spare, and a memory already large enough does not grow |
| Memory.Grown | include/runtime/serializemgr.h:193-195 | growth keeps the old bytes, zeroes the new ones, and leaves room for elemNum bytes |
| Memory.GrowthOnWholePages | include/runtime/serializemgr.h:193-195 | for every count a save records, the growth is `ElemNum/kPageSize - MemPages` pages when that exceeds the current pages and none otherwise |
| Memory.GrowthAsWrittenFallsShort | include/runtime/serializemgr.h:193-194 | the growth as written leaves 65537 recorded bytes in a one-page memory |
| Memory.MemoryInstance.constructor | include/runtime/serializemgr.h:185 | a new memory of the given pages, all zero |
| Memory.MemoryInstance.GrowPage | include/runtime/serializemgr.h:194 | growing by n pages keeps the old bytes and appends n zeroed pages |
| Runtime.ModuleInstance.ElemNum | include/runtime/serializemgr.h:164-172 | the element count is 0 without a memory |
| Runtime.ModuleInstance.Image | include/runtime/serializemgr.h:173-175 | the bytes handed to the diff are exactly ElemNum bytes |
| Runtime.ModuleInstance.AddMemory | include/runtime/serializemgr.h:183-186 | a module without memory gets a fresh memory of no pages |
| Runtime.SerializationManager.constructor | include/runtime/serializemgr.h:89-92 | the codec is bound to the stack manager's module and starts with no baseline |
| Runtime.SerializationManager.SaveChangesToFile | include/runtime/serializemgr.h:204-235 | the log is the diff of the first elemNum bytes against the old baseline, and the new baseline is their copy, or absent for zero bytes |
| Runtime.SerializationManager.LoadChangesFromFile | include/runtime/serializemgr.h:237-252 | the buffer becomes the log replayed in order onto its old contents |
| Runtime.SerializationManager.SaveMemory | include/runtime/serializemgr.h:163-176 | writes ElemNum (0 without memory), logs the diff of the memory image, and makes the image the baseline |
| Runtime.SerializationManager.LoadMemory | include/runtime/serializemgr.h:178-202 | a bad count changes nothing; a zero count leaves memory and baseline alone; otherwise an existing memory is kept (one is created if absent), grown, replayed, and copied into the baseline |
| Runtime.SerializationManager.RestoreMemory | include/runtime/serializemgr.h:183-201 | after a non-zero count, the memory is grown to hold it, holds the logs replayed over the grown bytes, and its first ElemNum bytes are the baseline |
| Runtime.SerializationManager.ReplayLogs | include/runtime/serializemgr.h:196-198 | the buffer becomes the logs of snapshots 1 to N replayed in order |
| Runtime.SerializationManager.SaveValues | include/runtime/serializemgr.h:257-259 | the numbers written are the first n values' encodings, in order |
| Runtime.SerializationManager.SaveGlobal | include/runtime/serializemgr.h:337-343 | writes the global-state encoding of the whole table |
| Runtime.SerializationManager.LoadGlobal | include/runtime/serializemgr.h:345-351 | on success the first recorded globals hold the values read and the others keep theirs; a count mismatch writes nothing |
| Runtime.SerializationManager.SaveFrames | include/runtime/serializemgr.h:278-298 | the frames from index 2 up are written through the map lookup, or the error names the first unresolvable frame's index |
| Runtime.SerializationManager.SaveStack | include/runtime/serializemgr.h:254-307 | writes the control-state encoding, or throws exactly as `EncodeStack` does |
| Runtime.SerializationManager.LoadValueStack | include/runtime/serializemgr.h:310-315 | the operand stack is replaced by exactly the values read |
| Runtime.SerializationManager.LoadFrameStack | include/runtime/serializemgr.h:322-332 | the frames read, count minus two of them, are appended to the frame stack in order |
| Runtime.SerializationManager.AppendFrames | include/runtime/serializemgr.h:323-332 | n frames read are appended in order, and the frames already there are kept |
| Runtime.SerializationManager.LoadStack | include/runtime/serializemgr.h:309-335 | the operand stack holds the values read, the frames read are appended, and the PC comes back with its FuncId |
| Runtime.SerializationManager.Save | include/runtime/serializemgr.h:113-118 | globals, stack and memory are written in that order; a stack error leaves the baseline alone |
| Runtime.SerializationManager.LoadState | include/runtime/serializemgr.h:120-123 | globals, then the stack, are restored exactly as the two decoders read them |
| Runtime.SerializationManager.Load | include/runtime/serializemgr.h:120-125 | globals, stack and memory are restored in that order and the PC comes back with its function |
| SnapshotFormat.EncodeSnapshot | include/runtime/serializemgr.h:113-118 | a save fails exactly when the stack part fails |
| SnapshotFormat.DecodeState | include/runtime/serializemgr.h:120-123 | a successful read yields no more globals than the module has and a PC in a known function |
| SnapshotFormat.DecodeSnapshot | include/runtime/serializemgr.h:120-125 | a successful read also yields a 64-bit element count |
| SnapshotFormat.SnapshotRoundTrip | include/runtime/serializemgr.h:113-125 | the whole archive reads back as the globals' and operand stack's low 64 bits, frames 2 and up, the PC with its function, and ElemNum |
| SnapshotFormat.RestoreReproducesLatest | include/runtime/serializemgr.h:178-202 | restoring into an all-zero memory, with growth, replay and re-seeding, gives back the latest image with zeros behind it and the baseline the saving process held |
| SnapshotFormat.ReplayKeepsInitialBytes | include/runtime/serializemgr.h:196-198 | replay does not clear the memory it restores into: a non-zero byte where the saved image holds zero survives, so the restored image differs from the saved one |
| SnapshotFormat.ScenarioPointers | include/runtime/serializemgr.h:285-303 | with starts 100, 150, 200, position 205 is function 2 at offset 5 and position 120 is function 0 |
| SnapshotFormat.ScenarioArchive | include/runtime/serializemgr.h:113-125 | operand stack [1, 2], one frame returning into function 2, one global 42 and one page save and read back unchanged |
| SnapshotFormat.ScenarioMemory | include/runtime/serializemgr.h:163-202 | a first save of one zero page writes no record, and replay leaves the page zero |

## Left out

- File handling is not modelled. This covers the `open`/`close` path building (include/runtime/serializemgr.h:94-111), the checks and throws when a `.bin` file fails to open (207-210, 238-241), and the binary layout of a record. Archives and logs are in-memory sequences.
- The text formatting of the archive (space-separated numbers, lines 36-60) is not modelled. The archive is the sequence of numbers it holds.
- Reading is modelled as a Result that can fail. The source never checks its stream, so a missing or malformed number leaves 0 or an indeterminate value and the load carries on. The model stops with `Truncated` or `OutOfRange` instead.
- `load_pointer` with a FuncId outside the function table, and `load_global` with more recorded globals than the module has, are undefined behaviour in the source. The model returns `UnknownFunction` and `GlobalCountMismatch` instead. It checks the global count before writing anything.
- The state after a failed load is left unspecified beyond the contracts. For example, the operand stack may already have been resized.
- A failed save yields no tokens in the model. The source has already written part of the archive when it throws.
- The singleton accessor and the static configuration (lines 68-87) are not modelled. `InputDir`, `OutputDir` and `SnapShotId` become parameters: `Load` takes the logs of snapshots 1 to N.
- `SnapShotId` equal to 2^32-1 is not modelled. The `uint32_t` replay loop then never ends.
- `set_stack_manager` can rebind the codec after construction; the model cannot. Its manager and module are fixed by the constructor.
- `spdlog` logging (line 206) is not modelled.
- The run-length-encoded memory strategy does not appear in this source file and is not modelled.
- `ValVariant` is not modelled beyond a 128-bit number. Only its low 64 bits are saved.
- The internals of `growPage` and `addMemory` are not modelled:
  - the page limit;
  - the ignored failure of `growPage`;
  - the memory type `addMemory` receives (the model creates a memory of zero pages).
- The page count is taken to be the memory's current size, which `growPage` raises.
- SnapshotFormat.RestoreReproducesLatest: assumes the memory being restored into is all zero. `load_memory` replays onto whatever instantiation left in the memory (183-198). The first log of a run is sparse and skips zero bytes, so a byte that a data segment set non-zero, where the saved image holds zero, survives the restore (SnapshotFormat.ReplayKeepsInitialBytes).
- Whether `DataPtr`, fetched before `growPage`, stays valid after growth is not modelled. The model replays onto the grown memory.
- Only memory 0 is modelled. Other memories of a module are neither saved nor restored by the source either.
- `Frame` keeps only Locals, Arity, VPos and the return point. The module pointer the source stores in it on load is not modelled.
- `Runtime.ModuleInstance.Valid` assumes fewer than 2^32 functions. The source converts the count to `uint32_t` when building `FuncMap`.

## Findings

| source | as written | input that shows it | evidently intended | confidence | as-written member | corrected member |
|---|---|---|---|---|---|---|
| include/runtime/serializemgr.h:218 | `save_changes_to_file` compares `currentData[i]` with `SavedData[i]` for every `i < elemNum`. The baseline holds the element count of the previous save, so once memory has grown it is read past its end. | A save with one page of memory, then `memory.grow(1)`, then a second save with `elemNum` = 131072: `SavedData` holds 65536 bytes and is read at offsets 65536 and up. | Positions beyond the baseline compare against zero, the value a grown page starts with. Cumulative replay then holds. | medium, not executed | DiffLog.AsWrittenReadsPastBaseline | DiffLog.CumulativeReplay |
| include/runtime/serializemgr.h:193-194 | `load_memory` grows by `ElemNum / kPageSize - MemPages` pages, rounding the recorded count down. | An archive recording `ElemNum` = 65537 loaded into a one-page memory: no page is added, yet the replay may write offset 65536 and the baseline copy reads 65537 bytes. | Grow to `ceil(ElemNum / kPageSize)` pages. This agrees with the code for every count a save records, since those are whole pages. | low, not executed | Memory.GrowthAsWrittenFallsShort | Memory.Growth |
