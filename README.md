# scgc in Dafny

A model of scgc, a simple conservative mark-sweep garbage collector written in
Rust (`src/lib.rs`, the `Gc` type), together with proofs about it.

The collector owns one fixed arena `[heap_begin, heap_end)`:

- Blocks are bump-allocated upward from `heap_begin`. The cursor is `heap_free`.
- A table of allocation records grows downward from `heap_end`. Slot `i`
  (counting from 1) sits `i * size_of::<Record>()` bytes below `heap_end`.
- Each record holds a block's address, its size and a status: `Unknown`,
  `Touched`, `Referred` or `Deallocated`.
- `malloc` tries three things in order:
  1. bump allocation;
  2. first-fit reuse of a `Deallocated` record (`malloc_from_deallocated`);
  3. one `cleanup`, then one more attempt at reuse.
- `cleanup` is a conservative mark-sweep pass that runs in three steps:
  1. It resets every record in use to `Unknown`.
  2. It marks. Any word on the stack range `[stack_begin, stack_end)` that
     `find_record` maps to an `Unknown` record makes that record `Touched`.
     Then, until nothing is `Touched`, each `Touched` record becomes
     `Referred` and its block is scanned the same way.
  3. It sweeps: every record still `Unknown` becomes `Deallocated`.

## How the model is organised

- **`Records`** (`records.dfy`):
  - the record, its status, and `RECORD_SIZE` (24 bytes: a pointer, a `usize`
    and a C enum on a 64-bit target);
  - the tiling invariant: records cover `[heap_begin, heap_free)` in slot
    order;
  - the mark loop's termination measure, `2·#Unknown + #Touched`.
- **`Resolver`** (`resolver.dfy`): two searches that map an address to a slot.
  - `Bisect` and `Resolve` are the search of `find_record` as written.
  - `Locate` is the search it evidently intends: the slot whose block holds
    the address.
- **`Collector`** (`collector.dfy`): `Collected`, the outcome of one pass,
  stated without loops. A slot in use ends `Referred` exactly when a chain of
  words leads to it from the stack range; all other slots end `Deallocated`.
  A word names a slot through the search of the pass: `find_record` as
  written (`Search.AsWritten`, the pass `cleanup` runs) or the intended
  search (`Search.Intended`, the corrected pass). Its companions are:
  - the per-record steps of the loops: `Reset` (the reset loop), `Touch` and
    `TouchSlot` (one word of `scan_touch`) and `Sweep` (the sweep loop);
  - the mark-phase invariant `MarkInv`, and the lemmas that carry the loops to
    that outcome;
  - closure of the outcome;
  - idempotence of the outcome;
  - `NewestSlotFreed`: the pass as written frees the newest record, whatever
    refers to it.
- **`Allocator`** (`allocator.dfy`):
  - `GcState`, the abstract state;
  - `MallocSpec`, the allocation policy;
  - lemmas on what `malloc` keeps and what its result means.
- **`Scgc`** (`gc.dfy`): the class `Gc`, whose fields are updated in place.
  - `new`, `stack_begin`, `stack_end`, `find_record`, `scan_touch`,
    `free_record`, `cleanup`, `malloc_from_deallocated` and `malloc` are
    methods on it, each with its loops.
  - `Cleanup` is proved to leave `CollectState`.
  - `Malloc` is proved to return and leave exactly what `MallocSpec` says.
- **`Findings`** (`findings.dfy`): the two discrepancies of `find_record`,
  each on a concrete arena, with the outcome of the pass as written and of
  the corrected pass on that arena.

Inputs that Rust reads from raw memory are parameters:

- Memory contents are a function `readWord: nat -> nat`. Its value at `p` is
  the word read at byte address `p`.
- The base address of the arena is a constructor argument.

Behaviours of the code worth noting:

- A request of size 0 is accepted. It gets a zero-size block, whose address
  may equal the next block's.
- Reuse keeps the record's old size, even when the request is smaller. The
  table therefore stays sorted by address for good.
- `cleanup` with an unset stack bound panics on the `unwrap`. `Cleanup`
  requires both bounds. `Malloc` requires them only when it would have to
  collect.
- On the cleanup path, `malloc` may hand out a slot that was `Referred` before
  the call. That happens when no chain of words, each resolved by
  `find_record` as written, reached it from the stack; `MallocResult` states
  this. As `find_record` never names the newest slot, the newest record is
  always freed by `cleanup` (`CleanupFreesNewest`) and can be handed out
  while the stack still holds its address.
- `find_record` can name slot 0, the memory at `heap_end`. `scan_touch` then
  reads that memory as a record and may store `Touched` into it. The mark and
  sweep loops visit only slots `1..record_count`, so that record is never
  promoted or swept.

The scan (`ScanTouch`, and through it `Cleanup` and `Malloc`) resolves words
with `FindRecord`, the search as written, which `Resolve` specifies. The
intended search is `FindRecordExact`, specified by `Locate`; the pass built
on it (`Search.Intended`) is the corrected collector of "## Findings".

## Model

| member | source | states |
|---|---|---|
| Scgc.Gc.constructor | src/lib.rs:49-65 | `new` starts with an empty table, the cursor at the base, the arena end at base + size and no stack bounds; the layout invariant holds and every record is settled |
| Scgc.Gc.SetStackBegin | src/lib.rs:67-71 | sets the lower stack bound, changes nothing else and keeps the invariant |
| Scgc.Gc.SetStackEnd | src/lib.rs:73-77 | sets the upper stack bound, changes nothing else and keeps the invariant |
| Scgc.Gc.FindRecord | src/lib.rs:185-215 | the bisection loop returns exactly what `Resolve` specifies |
| Resolver.Bisect | src/lib.rs:195-214 | a hit is a slot strictly inside the searched interval, which therefore excludes slot 0 and the last slot, and its block holds the address; otherwise the search returns the bottom of the interval |
| Resolver.Resolve | src/lib.rs:185-215 | the search returns `None` exactly when the address is outside `[heap_begin, heap_end]`, inclusive at both ends; otherwise it returns slot 0 or a slot below the last one |
| Resolver.BisectSameLayout | src/lib.rs:195-210 | the bisection reads only addresses and sizes, never statuses |
| Resolver.ResolveSameLayout | src/lib.rs:185-215 | two tables that differ only in statuses resolve every address alike |
| Resolver.BisectFinds | src/lib.rs:195-210 | on a tiled table, an address inside slot `j`, with `j` strictly inside the interval, is a hit at `j` |
| Resolver.ResolveFindsSlot | src/lib.rs:185-210 | on a tiled table, an address inside slot `j` with `1 <= j < record_count` resolves to `j` |
| Resolver.LocateFrom | src/lib.rs:185-215 | the intended search above slot `i` returns a slot above `i` whose block holds the address |
| Resolver.LocateFromNone | src/lib.rs:185-215 | the intended search above slot `i` fails exactly when no block above `i` holds the address |
| Resolver.LocateNone | src/lib.rs:185-215 | `Locate` fails exactly when no block holds the address |
| Resolver.LocateFromSameLayout | src/lib.rs:185-215 | the intended search above slot `i` depends on the layout only |
| Resolver.LocateSameLayout | src/lib.rs:185-215 | the intended search depends on the layout only |
| Resolver.LocateUnique | src/lib.rs:195-210 | on a tiled table, the block that holds an address is unique, and `Locate` names it |
| Resolver.ResolveAgreesBelowLast | src/lib.rs:195-210 | the search as written and the intended one agree on every address inside a slot other than the last |
| Scgc.Gc.FindRecordExact | src/lib.rs:185-215 | the corrected bisection over the real slots `1..record_count` returns exactly `Locate`: the slot whose block holds the address, or `None` |
| Scgc.Gc.FreeRecord | src/lib.rs:229-233 | the given record becomes `Deallocated`; nothing else changes |
| Scgc.Gc.ScanWord | src/lib.rs:219-225 | one word of the scan: the slot `find_record` names for it becomes `Touched` if it is a slot of the table and `Unknown`; nothing else changes |
| Scgc.Gc.ScanTouch | src/lib.rs:217-226 | after a scan of `[begin, end)`, each record is the old one, and it is `Touched` instead when it was `Unknown` and `find_record` as written names its slot for some word in the range, fallback included; the layout is kept |
| Collector.RefersExtend | src/lib.rs:219-223 | scanning one more byte address adds exactly the slot its word names |
| Collector.ScanStep | src/lib.rs:219-225 | one step of the scan loop keeps the scan's specification on the range scanned so far |
| Scgc.Gc.ResetStatuses | src/lib.rs:88-96 | every record in use becomes `Unknown`; `Deallocated` ones stay |
| Collector.RootScanStartsMark | src/lib.rs:90-100 | the reset followed by the stack scan establishes the mark invariant |
| Scgc.Gc.MarkReferred | src/lib.rs:110 | the record becomes `Referred`; nothing else changes |
| Scgc.Gc.PromoteSlot | src/lib.rs:109-112 | the `Touched` record becomes `Referred`, and every other record is then touched exactly when `find_record` names it from a word of that block; the step keeps the mark invariant and lowers the measure |
| Collector.PromoteKeepsReachable | src/lib.rs:109-112 | every slot a promotion marks is reachable through the promoted slot |
| Collector.PromoteKeepsClosed | src/lib.rs:109-112 | a promotion keeps the stack range and the blocks of `Referred` slots closed, the promoted block included |
| Collector.PromoteKeepsMarkInv | src/lib.rs:105-113 | promoting a `Touched` slot to `Referred` and touching every `Unknown` slot named from its block keep the mark invariant |
| Collector.PromoteLowersMeasure | src/lib.rs:102-114 | the same step strictly lowers `2·#Unknown + #Touched`, so the fixpoint loop terminates |
| Scgc.Gc.PromoteTouched | src/lib.rs:104-113 | one round of the fixpoint loop keeps the mark invariant; if it found a `Touched` record it lowered the measure, and otherwise it changed nothing and no record is `Touched` |
| Records.MeasureUpdate | src/lib.rs:102-114 | changing one status changes the measure by the difference of the two weights |
| Records.MeasureMonotone | src/lib.rs:102-114 | if no status gains weight, the measure does not grow |
| Collector.ChainPrefix | src/lib.rs:102-114 | dropping the last slot of a chain leaves a chain |
| Collector.ChainRetained | src/lib.rs:102-114 | at the fixpoint of the mark loop, every slot on a chain from the stack is `Referred` |
| Collector.RetainedRoot | src/lib.rs:100 | at the fixpoint, a slot in use named from the stack is `Referred` |
| Collector.RetainedStep | src/lib.rs:112 | at the fixpoint, a slot in use named from the block of a `Referred` slot is `Referred` |
| Scgc.Gc.SweepUnknown | src/lib.rs:116-124 | every record still `Unknown` becomes `Deallocated`; nothing else changes |
| Collector.SweepSlot | src/lib.rs:116-124 | sweeping one slot at the fixpoint gives that slot's record in `Collected` |
| Collector.SweepYieldsCollected | src/lib.rs:116-124 | sweeping the fixpoint of the mark phase gives exactly `Collected` |
| Scgc.Gc.Cleanup | src/lib.rs:80-125 | with both stack bounds set, a full pass leaves the arena bounds, cursor, count and layout alone, and leaves the table `Collected` for the search as written |
| Collector.Collected | src/lib.rs:86-125 | a pass changes only statuses; every record ends `Referred` or `Deallocated`; `Deallocated` stays `Deallocated`; a record ends `Referred` exactly when it was in use and a chain from the stack reaches it, each link a word the pass's search resolves to the next slot |
| Collector.ReachableFromRoot | src/lib.rs:100 | a slot in use that a stack word names is reachable |
| Collector.ReachableStep | src/lib.rs:112 | a slot in use named from inside a reachable block is reachable |
| Collector.CollectedKeepsRooted | src/lib.rs:100 | a slot in use that the pass's search returns for a word on the stack ends `Referred`; for the pass as written this is any slot `find_record` returns, the unchecked fallback included |
| Collector.CollectedKeepsReferenced | src/lib.rs:112 | if a block ends `Referred`, a slot in use that the pass's search returns for a word inside it ends `Referred` too, the fallback of `find_record` included |
| Collector.NeverRefersLast | src/lib.rs:195-214 | with `find_record` as written, no word of any range names the last slot |
| Collector.NewestSlotFreed | src/lib.rs:86-125 | the pass as written always frees the newest record, whatever the stack and the heap hold |
| Collector.IntendedKeepsRooted | src/lib.rs:100 | in the corrected pass, a slot in use whose block holds the value of a stack word ends `Referred` |
| Collector.ChainPrefixAt | src/lib.rs:102-114 | every non-empty prefix of a chain is a chain |
| Collector.TargetAgain | src/lib.rs:219-222 | after a pass, every word still names the same slot |
| Collector.RefersFromAgain | src/lib.rs:112 | after a pass, a block still names the slots it named |
| Collector.RootedAgain | src/lib.rs:100 | after a pass, the stack still names the slots it named |
| Collector.LiveAgain | src/lib.rs:86-125 | a slot on a chain is still in use after the pass |
| Collector.ChainSurvives | src/lib.rs:86-125 | a chain of one pass is a chain of the next pass too |
| Collector.CollectedIdempotent | src/lib.rs:86-125 | a second pass over the same memory keeps every record the first one kept |
| Allocator.CollectState | src/lib.rs:80-125 | `cleanup` as a change of state: only statuses change, every record ends in use or free, and free records stay free |
| Allocator.CleanupFreesNewest | src/lib.rs:80-125 | `cleanup` leaves the newest record `Deallocated` |
| Allocator.CleanupIdempotent | src/lib.rs:80-84 | a second `cleanup` right after a first, with memory unchanged, changes nothing |
| Allocator.CollectKeepsValid | src/lib.rs:86-125 | `cleanup` keeps the layout invariant and the tiling, and settles every record |
| Records.TiledSameLayout | src/lib.rs:229-233 | status changes keep the records tiling the used part of the arena |
| Records.TiledOrder | src/lib.rs:138-146 | in a tiled table, a lower slot ends no later than a higher one begins |
| Records.TiledBounds | src/lib.rs:138-146 | every block lies inside `[heap_begin, heap_free)` |
| Records.TiledMonotone | src/lib.rs:138-146 | addresses and block ends grow with the slot index |
| Records.TiledDisjoint | src/lib.rs:138-146 | two different slots never hold the same byte |
| Records.TiledAppend | src/lib.rs:138-146 | a block appended at the cursor keeps the table tiled, up to the new cursor |
| Allocator.InitialValid | src/lib.rs:56-64 | the state `new` builds satisfies the layout invariant and has no unsettled record |
| Allocator.BumpStep | src/lib.rs:133-148 | the bump path returns the cursor, appends one `Referred` record of the requested size there, moves the cursor to its end and keeps the older records |
| Allocator.FirstFitFrom | src/lib.rs:171-176 | the first slot above `i` that is `Deallocated` and large enough; no slot before it qualifies; `None` means no slot qualifies |
| Allocator.ReuseStep | src/lib.rs:169-182 | reuse succeeds exactly when some free record is large enough; then the first such record becomes `Referred`, its address is returned and every other record stays; otherwise nothing changes |
| Scgc.Gc.MallocFromDeallocated | src/lib.rs:169-182 | first-fit reuse: the lowest-index `Deallocated` slot with enough room becomes `Referred` and its address is returned; if there is none, nothing changes and the result is `None` |
| Allocator.ReuseKeepsValid | src/lib.rs:177-179 | reuse changes one status and keeps the layout invariant |
| Allocator.MallocSpec | src/lib.rs:128-167 | the `malloc` policy: when the bump test passes, the cursor is returned; otherwise the cursor stays and no record moves or is added; a failure only happens when neither bump nor reuse could meet the request before the cleanup |
| Scgc.Gc.Malloc | src/lib.rs:128-167 | `malloc` returns and leaves exactly `MallocSpec`: bump, else reuse, else one cleanup and one more reuse |
| Allocator.MallocKeepsValid | src/lib.rs:128-167 | every path keeps the layout invariant and the tiling; the arena bounds and stack bounds stay; the cursor and record count never decrease; no record moves or is resized; settled states stay settled |
| Allocator.MallocResult | src/lib.rs:128-167 | a returned address belongs to a slot that is now `Referred` and large enough. Before the call that slot was new, `Deallocated`, or freed by this call's cleanup because no chain of words resolved by `find_record` as written reached it. For a non-zero request, no other block holds that address |
| Allocator.MallocFailure | src/lib.rs:158-166 | `malloc` fails exactly when bump and reuse fail and reuse after the cleanup fails too; the failed call leaves the state the cleanup produced |
| Allocator.MallocSparesLive | src/lib.rs:132-156 | when bump or reuse succeeds, no cleanup runs, the call succeeds and every record in use is unchanged |
| Findings.ResolveMissesLast | src/lib.rs:195-210 | for any tiled table, an address inside the last block is not resolved to the last slot |
| Findings.FindRecordMissesLastSlot | src/lib.rs:195-214 | one 8-byte block at 4096: its own address resolves to slot 0 |
| Findings.SingleBlockFreed | src/lib.rs:86-125 | one 8-byte block at 4096 whose address is on the stack: the pass as written frees it |
| Findings.SingleBlockKept | src/lib.rs:100 | the same arena: the corrected pass keeps the block |
| Findings.FindRecordFallbackUnchecked | src/lib.rs:212-214 | three 8-byte blocks from 4096: address 4150, in free space, resolves to slot 2, whose block does not hold it |
| Findings.FallbackKeepsBlock | src/lib.rs:212-222 | the same arena with 4150 on the stack: the pass as written keeps slot 2 through the fallback |
| Findings.UnrootedFreed | src/lib.rs:98-114 | when no word of the stack range names a slot, no slot is reachable |
| Findings.FallbackFreedWhenIntended | src/lib.rs:212-214 | the same arena: the corrected pass frees slot 2, as no block holds 4150 |

## Left out

- `alloc::heap::allocate` and `alloc::oom` in `new`: foreign allocator calls.
  The base address is a parameter, and allocation failure is not modelled.
- `info!` logging: output only.
- `mem::transmute` of arena bytes into records: the table is a separate
  sequence. The slot-to-address arithmetic survives only in the capacity
  check `heap_free + RECORD_SIZE * record_count <= heap_end`. For the same
  reason, the model cannot express the table overlapping the blocks in
  `[heap_begin, heap_free)`, the case the capacity check rules out.
- Byte-level, unaligned reads of stack and heap words: they become the
  parameter `readWord`. During a pass, memory is taken to be fixed.
- `usize` overflow and `isize` casts in pointer offsets and in
  `size + record_size`: addresses are unbounded naturals.
- Reads and stores through the record that `find_record` names as slot 0:
  that record is the memory at `heap_end`, outside the arena and the table.
  `Resolve` and `FindRecord` do return slot 0; the scan passes it over, so
  the model does not capture the Rust `scan_touch` marking that memory
  `Touched` when it happens to read as `Unknown`.
- The `malloc!` and `malloc_core!` macros and `examples/example1.rs`: call-site
  conventions and a demo driver.
- The unused `heap_size` field.
- The `Debug` derivations and the `&Self` results of `stack_begin` and
  `stack_end`: they only allow chaining and printing.

## Findings

| source | as written | input that shows it | evidently intended | confidence | as-written member | corrected member |
|---|---|---|---|---|---|---|
| src/lib.rs:195-210 | the bisection runs over `[0, record_count)` and probes only slots strictly inside it, so it never probes the last slot | one 8-byte record at 4096, arena `[4096, 4160)`, address 4096: the result is slot 0, not slot 1. With the stack `[0, 1)` holding 4096, `cleanup` frees that block while it is still in use; in general it frees the newest block on every call | search the real slots `1..record_count` and return the one whose block holds the address | high (proved; not executed) | Findings.SingleBlockFreed | Findings.SingleBlockKept |
| src/lib.rs:212-214 | when no probe hits, slot `start` is returned without checking that its block holds the address; it can be slot 0, the memory at `heap_end` | three 8-byte records from 4096, arena end 4296, address 4150 in free space: the result is slot 2, whose block `[4104, 4112)` does not hold 4150. With 4150 on the stack, `cleanup` keeps slot 2 | return `None` when no block holds the address | high (proved; not executed) | Findings.FallbackKeepsBlock | Findings.FallbackFreedWhenIntended |
