# vecs slot map, memory dump tools and debug helpers in Dafny

This project models the core of the `vecs` repository:

- `vecs::SlotMap<T, Capacity, TIndex>` (`slotmap.dfy`, module `SlotMaps`). This is a
  fixed-capacity generational slot map built from three parallel arrays:
  - `indices`: per slot, an id and a generation. A live slot's id is its dense
    position. A free slot's id is the next link of the free list.
  - `data`: the dense values.
  - `erase`: maps each dense position to the slot that owns it.

  It also keeps the scalars `size`, `freelist` and `generation`.
  - The class `SlotMap` updates the arrays in place, as the source does.
  - The pure functions `PushTable` and `EraseTable` say what `push_back` and `erase` do to the
    bookkeeping. The class methods are proved against them.
  - `Inv` is the invariant both operations keep. It covers dense positions,
    the free list, the cover of all slots, and generations.
  - A proof-only `Book` records the live keys in dense order, the free list in link order, and
    every key ever issued. On top of it:
    - validity equals liveness for issued keys;
    - an erased key never becomes valid again, whatever calls follow;
    - the free list, followed link by link, visits exactly the free slots.
- Scenarios over the class (`slotmap_scenarios.dfy`, module `SlotMapScenarios`):
  - the push/erase trace of `examples/main.cpp`;
  - the capacity bound;
  - a double erase;
  - a fresh map accepting a key it never issued.
- The hex dump of `memory_printer.hpp` (`memory_printer.dfy`, module `MemoryPrinter`):
  - the ceiling-division line count;
  - the two-digit hex cell and the printable-character rule;
  - the line loop of `print_memory`, proved against the function `Dump`.
- The diffing viewer of `memory_viewer.hpp` (`memory_viewer.dfy`, module `MemoryViewer`).
  The class `Viewer` holds the two tracked maps, which its per-line loops update in place. It is
  proved against:
  - `LineView`, the lines a render shows given the maps recorded before it;
  - `Snapshot`, what the maps hold afterwards.

  Lemmas state the per-cell highlight rule and the `--` cell. They also show that rendering the
  same memory twice highlights nothing the second time.
- From `debug.hpp` (`debug.dfy`, module `Debug`):
  - the header centring of `log_header`;
  - the character copy in the `DebugTag` constructor.

Memory is a sequence of bytes, and an address is an offset into it. The value type `T` of the
slot map is `T(0)`, a type with a default value, because `_data{}` default-constructs
`Capacity` values of `T`. The scenarios use `int`, with `name__i` written as `i`.

Two behaviours of the code that the model keeps as written:

- `_free_slot` stamps the freed slot with the counter as it stood before that call's
  increment (`slotmap.hpp:133`, then `:146`), not the post-increment value. After the example
  trace's erase, slot 2 carries generation 5, and the next push re-stamps it with 6.
- `clear()` only rebuilds the free links and the head (`slotmap.hpp:88`, `92-98`). It does not
  reset `size`, so it restores the invariant only on an empty map (`ClearKeepsInvWhenEmpty`).
  Even there it resets only the free-list order. The counter and every slot's generation are
  kept, so every key valid before `clear()` is still valid after it (`ClearTable`). Once any key
  has been issued, the first key after `clear()` is `{0, g}` with g > 0, not a fresh map's
  `{0, 0}` (`ClearKeepsCounter`).

## Model

| member | source | states |
|---|---|---|
| SlotMaps.KeyValid | vecs/include/vecs/data_structures/slotmap.hpp:78-86 | `is_key_valid` on the bookkeeping state: the id is below Capacity and the generation matches the slot's, so a valid key never indexes out of bounds |
| SlotMaps.InitTable | vecs/include/vecs/data_structures/slotmap.hpp:41-43 | the constructed state has size, head and counter 0, and accepts exactly the keys with id below Capacity and generation 0 |
| SlotMaps.ClearTable | vecs/include/vecs/data_structures/slotmap.hpp:88-98 | `clear()` relinks slot i to i+1 with head 0 and keeps size, counter, `erase` and every generation, so exactly the keys valid before are valid after |
| SlotMaps.ClearKeepsCounter | vecs/include/vecs/data_structures/slotmap.hpp:88-98 | on an empty map that has issued keys, the next key after `clear()` is `{0, generation}`, not a fresh map's `{0, 0}` |
| SlotMaps.PushTable | vecs/include/vecs/data_structures/slotmap.hpp:52-123 | `push_back` pops the head, links the new dense position and its slot both ways, bumps size and counter, and makes the returned key valid |
| SlotMaps.EraseTable | vecs/include/vecs/data_structures/slotmap.hpp:125-147 | `_free_slot` makes the erased slot the head, stamps it with the counter before the increment (so the erased key is invalid), moves the last dense entry into the hole and fixes up the moved slot's id, then shrinks size and bumps the counter |
| SlotMaps.MoveLastInto | vecs/include/vecs/data_structures/slotmap.hpp:136-142 | the last live value is copied into the hole and every other buffer position, the stale last one included, is unchanged |
| SlotMaps.SwapRemoveMultiset | vecs/include/vecs/data_structures/slotmap.hpp:136-145 | swap-remove drops exactly one occurrence of the removed element, so it is a permutation of the rest |
| SlotMaps.SwapRemoveDistinct | vecs/include/vecs/data_structures/slotmap.hpp:136-145 | on distinct live keys, swap-remove removes exactly the erased key and keeps the rest distinct |
| SlotMaps.SwapRemoveInPlace | vecs/include/vecs/data_structures/slotmap.hpp:139 | copying the last live value into the hole, then shrinking `size`, is swap-remove of the live prefix |
| SlotMaps.SwapRemoveKeepsPairs | vecs/include/vecs/data_structures/slotmap.hpp:139-141 | swap-removing the same position from keys and values keeps every other key next to its own value |
| SlotMaps.LiveKeysDistinct | vecs/include/vecs/data_structures/slotmap.hpp:129-141 | under the invariant no two live keys share a slot, so no two simultaneously live keys coincide |
| SlotMaps.LiveAt | vecs/include/vecs/data_structures/slotmap.hpp:129-130 | the live key at dense position p sits in slot `erase[p]`, which is live, points back at p and is not on the free list |
| SlotMaps.ValidIffLive | vecs/include/vecs/data_structures/slotmap.hpp:80-86 | for a key that `push_back` issued, `is_key_valid` holds exactly when the key is live |
| SlotMaps.ClearKeepsInvWhenEmpty | vecs/include/vecs/data_structures/slotmap.hpp:88-98 | `clear()` restores the invariant, with the free list 0 .. Capacity-1, when the map is empty |
| SlotMaps.InitInv | vecs/include/vecs/data_structures/slotmap.hpp:41-43 | the constructed state (size, head and counter 0, slot i linking to i+1, the last to the sentinel) satisfies the invariant with every slot free and no key issued |
| SlotMaps.PushFacts | vecs/include/vecs/data_structures/slotmap.hpp:103-111 | a map that is not full has a free head slot below Capacity that no live dense position names, and the key it will produce was never issued |
| SlotMaps.PushDense | vecs/include/vecs/data_structures/slotmap.hpp:53-66 | after `push_back` every dense position, the new one included, is owned by a slot pointing back to it, and the live keys gain the new key at the end |
| SlotMaps.PushFree | vecs/include/vecs/data_structures/slotmap.hpp:110-111 | popping the head leaves the old second free slot as head, with every remaining link intact |
| SlotMaps.PushCover | vecs/include/vecs/data_structures/slotmap.hpp:102-123 | after `push_back` each slot is still either live or free, never both; the popped slot is now live |
| SlotMaps.PushGen | vecs/include/vecs/data_structures/slotmap.hpp:116-120 | the stamp is below the bumped counter, and every retired key still fails validation |
| SlotMaps.PushKeepsInv | vecs/include/vecs/data_structures/slotmap.hpp:52-123 | on a map that is not full, `push_back` keeps the whole invariant and hands out a key never issued before |
| SlotMaps.EraseFacts | vecs/include/vecs/data_structures/slotmap.hpp:127-141 | a live key's slot and dense position point at each other, the last position's slot points back, and no other live position names the erased slot |
| SlotMaps.EraseDense | vecs/include/vecs/data_structures/slotmap.hpp:136-145 | after `_free_slot` every remaining dense position is owned by the slot that points to it, and the live keys are the swap-removed sequence |
| SlotMaps.EraseDenseAt | vecs/include/vecs/data_structures/slotmap.hpp:136-142 | dense position p after the erase is owned correctly: the hole by the moved slot, any other position as before |
| SlotMaps.EraseDenseKept | vecs/include/vecs/data_structures/slotmap.hpp:136-142 | a dense position other than the hole keeps its owner, that owner's entry and its key |
| SlotMaps.EraseDenseHole | vecs/include/vecs/data_structures/slotmap.hpp:139-141 | the hole is owned by the slot of the moved last value, whose id is fixed up to the hole |
| SlotMaps.EraseFree | vecs/include/vecs/data_structures/slotmap.hpp:132-134 | the erased slot is pushed on the free list: the list stays threaded through distinct free slots from the head |
| SlotMaps.EraseFreeLinks | vecs/include/vecs/data_structures/slotmap.hpp:132-134 | every link of the new free list is right: the erased slot links to the old head, each old free slot keeps its link |
| SlotMaps.EraseFreeHead | vecs/include/vecs/data_structures/slotmap.hpp:132-134 | the erased slot heads the new free list and links to the old head (or the sentinel) |
| SlotMaps.EraseFreeDistinct | vecs/include/vecs/data_structures/slotmap.hpp:132-134 | the new free list has no repeated slot |
| SlotMaps.EraseFreeLink | vecs/include/vecs/data_structures/slotmap.hpp:139-141 | a slot already free keeps its entry, so its link, one place further down the list; the fix-up never writes it |
| SlotMaps.EraseCoverAt | vecs/include/vecs/data_structures/slotmap.hpp:129-146 | after the erase a given slot is free exactly when it is not live |
| SlotMaps.EraseCoverErased | vecs/include/vecs/data_structures/slotmap.hpp:132-134 | the erased slot is on the free list and no longer live |
| SlotMaps.EraseCoverMoved | vecs/include/vecs/data_structures/slotmap.hpp:139-141 | the slot whose value moved into the hole stays live, at the hole |
| SlotMaps.EraseCoverOther | vecs/include/vecs/data_structures/slotmap.hpp:129-146 | every other slot keeps its status, live or free |
| SlotMaps.EraseCoverLive | vecs/include/vecs/data_structures/slotmap.hpp:136-142 | another live slot keeps its entry and dense position, so stays live |
| SlotMaps.EraseCoverFree | vecs/include/vecs/data_structures/slotmap.hpp:132-134 | another free slot stays on the list and stays not live |
| SlotMaps.EraseCover | vecs/include/vecs/data_structures/slotmap.hpp:129-146 | after the erase every slot is either live or free, never both |
| SlotMaps.EraseGen | vecs/include/vecs/data_structures/slotmap.hpp:133-146 | after the erase every issued key is older than the counter, live keys are issued, and every retired key (the erased one included) fails validation |
| SlotMaps.EraseKeepsInv | vecs/include/vecs/data_structures/slotmap.hpp:125-147 | erasing a live key keeps the whole invariant |
| SlotMaps.PushKeepsValidity | vecs/include/vecs/data_structures/slotmap.hpp:114-116 | the key `push_back` returns is valid, and no earlier issued key changes validity |
| SlotMaps.EraseValidity | vecs/include/vecs/data_structures/slotmap.hpp:129-141 | after erasing a live key k an issued key is valid exactly when it is not k and was valid before |
| SlotMaps.EraseKeepsOthers | vecs/include/vecs/data_structures/slotmap.hpp:136-142 | after erasing k every other live key's slot names the dense position holding the same value as before |
| SlotMaps.EraseKeepsOther | vecs/include/vecs/data_structures/slotmap.hpp:139-141 | the other key at dense position p is found at the hole if p was last, else still at p, with its old value |
| SlotMaps.EraseValidityAll | vecs/include/vecs/data_structures/slotmap.hpp:129-141 | after erasing a live key k every issued key is valid exactly when it is not k and was valid before |
| SlotMaps.Step | vecs/include/vecs/data_structures/slotmap.hpp:52-76 | one call, a push (a no-op when full) or an erase (a no-op on an invalid key), keeps the invariant and never forgets an issued key |
| SlotMaps.Run | vecs/include/vecs/data_structures/slotmap.hpp:52-76 | any sequence of calls keeps the invariant and the set of issued keys only grows |
| SlotMaps.StepKeepsStale | vecs/include/vecs/data_structures/slotmap.hpp:114-146 | one call never makes an invalid issued key valid again |
| SlotMaps.StaleForever | vecs/include/vecs/data_structures/slotmap.hpp:114-146 | once an issued key fails `is_key_valid`, it fails it after every later sequence of calls |
| SlotMaps.ErasedKeyNeverValidAgain | vecs/include/vecs/data_structures/slotmap.hpp:68-76 | a live key is valid, is invalid right after its erase, and stays invalid whatever follows |
| SlotMaps.FollowFree | vecs/include/vecs/data_structures/slotmap.hpp:110-111 | following n links from the i-th free slot reaches the (i+n)-th, or the sentinel after the last |
| SlotMaps.FreeListWalk | vecs/include/vecs/data_structures/slotmap.hpp:92-134 | following links from `freelist` visits the Capacity - size free slots, each once and none live, and then reaches the sentinel Capacity |
| SlotMaps.SlotMap.constructor | vecs/include/vecs/data_structures/slotmap.hpp:41-43 | the new map is valid: size, head and counter 0, slot i linking to i+1, nothing issued |
| SlotMaps.SlotMap.Size | vecs/include/vecs/data_structures/slotmap.hpp:45 | `size()` is the number of live keys, and with the free slots it makes up the capacity |
| SlotMaps.SlotMap.Capacity | vecs/include/vecs/data_structures/slotmap.hpp:46 | `capacity()` is the length of each array and the number of live plus free slots |
| SlotMaps.SlotMap.Elements | vecs/include/vecs/data_structures/slotmap.hpp:47-50 | iteration from `begin()` to `end()` yields one value per live key |
| SlotMaps.SlotMap.IsKeyValid | vecs/include/vecs/data_structures/slotmap.hpp:78-86 | `is_key_valid` is the bounds-and-generation test; for an issued key it holds exactly when the key is live |
| SlotMaps.SlotMap.Clear | vecs/include/vecs/data_structures/slotmap.hpp:88 | `clear()` relinks the free list 0 .. Capacity-1 with head 0, keeps size, generations and `erase`, and leaves a valid empty map valid |
| SlotMaps.SlotMap.InitFreeList | vecs/include/vecs/data_structures/slotmap.hpp:91-98 | `_init_freelist`'s loop sets each slot's id to its successor's index, keeps its generation, and sets the head to 0 |
| SlotMaps.SlotMap.AllocateSlot | vecs/include/vecs/data_structures/slotmap.hpp:100-123 | a full map fails with nothing changed; otherwise the head slot is popped and stamped with the old size and counter, and the head moves to its old link |
| SlotMaps.SlotMap.PushBack | vecs/include/vecs/data_structures/slotmap.hpp:52-66 | full: error, state unchanged; otherwise: key {old head, old counter}, slot stamped {old size, old counter}, value at dense position old size, `erase[old size]` set, size and counter up by one, everything else unchanged, the new key valid and no other issued key changing validity |
| SlotMaps.SlotMap.Erase | vecs/include/vecs/data_structures/slotmap.hpp:68-76 | an invalid key: false, nothing changed; a valid issued key: true, the value swap-removed, the slot heading the free list with the pre-increment counter as its stamp, size down and counter up, the key now invalid and every other issued key keeping its validity |
| SlotMaps.SlotMap.FreeSlot | vecs/include/vecs/data_structures/slotmap.hpp:125-147 | `_free_slot` performs `EraseTable` on the arrays: the hole gets the last value, only the erased slot and the moved slot's id change |
| SlotMapScenarios.NewMap | vecs/include/vecs/data_structures/slotmap.hpp:41-43 | a new map of any capacity is valid, empty, with head 0 and each slot linking to its successor |
| SlotMapScenarios.Push | vecs/include/vecs/data_structures/slotmap.hpp:53-66 | `push_back` with room, per entry: the returned key, the stamped slot, the written dense position and what stays as it was |
| SlotMapScenarios.PushFirstTwo | examples/main.cpp:31-41 | the first two pushes return keys {0, 0} and {1, 1} and store 0 and 1 |
| SlotMapScenarios.PushNextThree | examples/main.cpp:31-41 | the next three pushes return {2, 2}, {3, 3} and {4, 4}; the free list now starts at 5 |
| SlotMapScenarios.EraseThird | examples/main.cpp:35-37 | erasing the third key succeeds, moves value 4 into its dense position, makes slot 2 the head, linking to 5 with stamp 5, and invalidates the key |
| SlotMapScenarios.PushFour | examples/main.cpp:38-41 | the last four pushes reuse slots 2, 5, 6 and 7 with generations 6 .. 9; the dense order becomes 0, 1, 4, 3, 6, 7, 8, 9 and {2, 2} stays invalid |
| SlotMapScenarios.ExampleTrace | examples/main.cpp:22-56 | the whole trace: final dense order 0, 1, 4, 3, 6, 7, 8, 9, and the erased key {2, 2} is invalid at the end |
| SlotMapScenarios.CapacityBound | vecs/include/vecs/data_structures/slotmap.hpp:103-105 | on a map of capacity 2 the third push fails with the capacity error and both earlier keys stay valid |
| SlotMapScenarios.PushTwo | vecs/include/vecs/data_structures/slotmap.hpp:53-66 | two pushes into a fresh map store 5 and 7, and the first key is valid |
| SlotMapScenarios.DoubleErase | vecs/include/vecs/data_structures/slotmap.hpp:68-76 | erasing the same issued key twice returns true, then false, and leaves only 7 |
| SlotMapScenarios.FreshMapAcceptsUnissuedKey | vecs/include/vecs/data_structures/slotmap.hpp:80-86 | on a fresh map `{id: 3, generation: 0}` passes `is_key_valid` although nothing was pushed: validity is not liveness |
| MemoryPrinter.DisplayLines | vecs/include/vecs/utils/memory_printer.hpp:18-34 | the line count covers all `size` bytes with less than one spare line |
| MemoryPrinter.DisplayLinesIsCeiling | vecs/include/vecs/utils/memory_printer.hpp:18-34 | a count with both bounds is exactly the returned line count: it is the ceiling of size / width |
| MemoryPrinter.ExactMultipleLines | vecs/include/vecs/utils/memory_printer.hpp:27-33 | when width divides size the count is size / width |
| MemoryPrinter.PartialLineAddsOne | vecs/include/vecs/utils/memory_printer.hpp:29-31 | with a remainder the count is size / width + 1 |
| MemoryPrinter.EmptyNeedsNoLines | vecs/include/vecs/utils/memory_printer.hpp:27-33 | an empty buffer needs no lines |
| MemoryPrinter.EveryByteOnALine | vecs/include/vecs/utils/memory_printer.hpp:85-91 | every byte before size lies on a printed line: line a / width, column a % width |
| MemoryPrinter.CharView | vecs/include/vecs/utils/memory_printer.hpp:64-65 | the character column only ever shows characters 33 ..= 126 |
| MemoryPrinter.CharViewShowsByte | vecs/include/vecs/utils/memory_printer.hpp:64-65 | a byte is shown as itself exactly when it is in 33 ..= 126; space, DEL and all others become '.' |
| MemoryPrinter.Hex2 | vecs/include/vecs/utils/memory_printer.hpp:56 | `%02X` yields two upper-case hex digits |
| MemoryPrinter.Hex2RoundTrip | vecs/include/vecs/utils/memory_printer.hpp:56 | reading a hex cell back gives the byte it shows |
| MemoryPrinter.Hex2Injective | vecs/include/vecs/utils/memory_printer.hpp:56 | distinct bytes print distinct hex cells |
| MemoryPrinter.LineAt | vecs/include/vecs/utils/memory_printer.hpp:54-68 | a line has exactly width hex cells and width characters |
| MemoryPrinter.PrintMemoryLine | vecs/include/vecs/utils/memory_printer.hpp:36-71 | the two loops of `print_memory_line` produce the line of the width bytes at the current offset |
| MemoryPrinter.Dump | vecs/include/vecs/utils/memory_printer.hpp:85-92 | the first n lines of a dump are n lines |
| MemoryPrinter.DumpLine | vecs/include/vecs/utils/memory_printer.hpp:85-92 | line k of a dump shows the width bytes from offset k * width |
| MemoryPrinter.DumpShowsByte | vecs/include/vecs/utils/memory_printer.hpp:54-92 | each byte before size appears in the full dump at its line and column, as a hex cell that reads back as the byte and as its character |
| MemoryPrinter.LineAtShows | vecs/include/vecs/utils/memory_printer.hpp:54-68 | column c of the line at offset `at` shows byte `at + c`, in hex (reading back as the byte) and as a character |
| MemoryPrinter.LineOfByte | vecs/include/vecs/utils/memory_printer.hpp:85 | a byte before size at line k, column c lies on one of the printed lines |
| MemoryPrinter.PrintMemory | vecs/include/vecs/utils/memory_printer.hpp:73-95 | `print_memory` emits exactly the needed number of lines, line k showing the bytes from offset k * width |
| MemoryViewer.NeededDisplayLines | vecs/include/vecs/utils/memory_viewer.hpp:32-49 | the viewer's line count equals the printer's ceiling division |
| MemoryViewer.ShortcutIsNotLineCount | vecs/include/vecs/utils/memory_viewer.hpp:48 | the commented shortcut `(size * width - 1) / width` is size - 1: 23 for 24 bytes at 16 per line, where 2 lines are needed |
| MemoryViewer.CorrectedShortcut | vecs/include/vecs/utils/memory_viewer.hpp:41-48 | `(size + width - 1) / width` equals the line count for every size and positive width |
| MemoryViewer.HexCellAt | vecs/include/vecs/utils/memory_viewer.hpp:75-88 | a hex cell is `--` exactly when its byte position is at or past size; otherwise it shows its byte and is highlighted exactly when that address was recorded with a different byte |
| MemoryViewer.HexSeen | vecs/include/vecs/utils/memory_viewer.hpp:90 | the first n hex cells record exactly the addresses of the line that are before size, each with its current byte |
| MemoryViewer.CharCellAt | vecs/include/vecs/utils/memory_viewer.hpp:103-111 | a character cell shows a character in 33..126, the byte itself exactly when it is printable, and is highlighted by the same recorded-and-different test with no size test |
| MemoryViewer.CharSeen | vecs/include/vecs/utils/memory_viewer.hpp:113 | the first n character cells record exactly their own addresses, each with its current byte |
| MemoryViewer.LineView | vecs/include/vecs/utils/memory_viewer.hpp:74-114 | a drawn line has width hex cells and width character cells |
| MemoryViewer.ViewDump | vecs/include/vecs/utils/memory_viewer.hpp:130-137 | the first n lines of a render are n lines |
| MemoryViewer.ViewDumpLine | vecs/include/vecs/utils/memory_viewer.hpp:130-137 | line k of a render is drawn at offset k * width against the maps recorded before the render |
| MemoryViewer.LineViewLocal | vecs/include/vecs/utils/memory_viewer.hpp:82-106 | a line depends on the recorded maps only at its own addresses |
| MemoryViewer.CellRule | vecs/include/vecs/utils/memory_viewer.hpp:74-114 | a hex cell is `--` exactly past size and then records nothing; otherwise it shows its byte, is highlighted exactly when its address was recorded with a different byte (never on first sight) and records the byte; character cells follow the same rule with no size test; other addresses keep their entries |
| MemoryViewer.HexSeenStep | vecs/include/vecs/utils/memory_viewer.hpp:75-91 | one hex cell records its own address, which no earlier cell of the line recorded, and only when in range |
| MemoryViewer.CharSeenStep | vecs/include/vecs/utils/memory_viewer.hpp:95-113 | one character cell records its own address, which no earlier cell of the line recorded |
| MemoryViewer.RenderStep | vecs/include/vecs/utils/memory_viewer.hpp:130-137 | a line drawn mid-render looks as against the maps from before the render, and recording it extends both snapshots by one line |
| MemoryViewer.HexSnapshotStep | vecs/include/vecs/utils/memory_viewer.hpp:75-90 | after line k the tracked bytes hold every address below min(size, (k+1) * width) |
| MemoryViewer.CharSnapshotStep | vecs/include/vecs/utils/memory_viewer.hpp:95-113 | after line k the tracked characters hold every address below (k+1) * width |
| MemoryViewer.LineUnhighlighted | vecs/include/vecs/utils/memory_viewer.hpp:82-111 | a line whose drawn bytes are all recorded with their current values shows no highlight |
| MemoryViewer.RerenderHighlightsNothing | vecs/include/vecs/utils/memory_viewer.hpp:74-114 | rendering the same memory a second time highlights no cell |
| MemoryViewer.RerenderLine | vecs/include/vecs/utils/memory_viewer.hpp:74-114 | each line of the second render is unhighlighted |
| MemoryViewer.FirstRenderHighlightsNothing | vecs/include/vecs/utils/memory_viewer.hpp:82-88 | a viewer that recorded nothing highlights nothing |
| MemoryViewer.Viewer.constructor | vecs/include/vecs/utils/memory_viewer.hpp:18-24 | a new viewer has recorded no byte and no character |
| MemoryViewer.Viewer.PrintMemoryLine | vecs/include/vecs/utils/memory_viewer.hpp:51-117 | `_print_memory_line` draws the line against the maps from before the call, then records the in-range bytes and all the line's characters |
| MemoryViewer.Viewer.HexColumn | vecs/include/vecs/utils/memory_viewer.hpp:74-92 | the hex loop draws each cell by the cell rule and records exactly the in-range bytes of the line |
| MemoryViewer.Viewer.CharColumn | vecs/include/vecs/utils/memory_viewer.hpp:95-114 | the character loop draws each cell by the rule and records every byte of the line, with no size test |
| MemoryViewer.Viewer.PrintMemory | vecs/include/vecs/utils/memory_viewer.hpp:119-139 | `_print_memory` draws the needed number of lines at offsets k * width against the maps from before it, and then the maps hold every byte below size and every drawn character |
| MemoryViewer.Viewer.Print | vecs/include/vecs/utils/memory_viewer.hpp:26-29 | `print` renders the object's bytes 16 to a line, with the same outcome |
| Debug.Padding | vecs/include/vecs/debug.hpp:55-57 | the left padding centres a message shorter than 50 within 50 (to within one) and is 0 otherwise |
| Debug.CenterHeader | vecs/include/vecs/debug.hpp:52-63 | the padded message is the padding in spaces, the message unchanged, then spaces; its length is max(50, length), measured like `length()` in bytes, one `char` per byte; the right padding equals the left or is one more |
| Debug.LogHeader | vecs/include/vecs/debug.hpp:65-67 | the banner has 56 `#` above and below and between them `## `, the message at its left padding with only spaces on both sides, and ` ##`; it is 56 wide exactly when the message fits in 50 |
| Debug.DebugTag.constructor | vecs/include/vecs/debug.hpp:15-21 | the tag holds exactly the CharCount characters of the literal |

## Left out

- printf, cout, ofstream and `std::filesystem`: all the printing, colour escapes, the log file and the `log`, `log_warn`, `log_error` and `log_message` stream output are I/O. The model returns the cells, lines, maps and strings that would be shown.
- `%p` addresses and the `reinterpret_cast` raw-byte views: these depend on memory layout. Memory is a byte sequence, and an address is an offset into it.
- `print_memory_object`, `print_memory_ptr`, `_print_memory_object` and `_print_memory_ptr`: they only take such a raw-byte view and print a heading. What they call (`print_memory`, `_print_memory`) is modelled.
- MemoryViewer.Viewer.constructor: the copy of the observed object is not modelled. `Print` takes that object's bytes as its argument.
- MemoryPrinter.PrintMemoryLine, MemoryPrinter.PrintMemory, MemoryViewer.Viewer.PrintMemoryLine and MemoryViewer.Viewer.PrintMemory: the source reads `width` bytes per line whatever `size` is. It over-reads past the object, and the viewer's character column has no size guard. These members require a buffer padded to whole lines rather than modelling the over-read.
- MemoryPrinter.DisplayLines and MemoryViewer.NeededDisplayLines: a width of 0 divides by zero in the source. They require a positive width.
- SlotMaps.SlotMap.Erase: the source's behaviour on a key that passes `is_key_valid` without being issued (for example `{3, 0}` on a fresh map) is undefined. `_free_slot` takes the free slot's link as a dense position. On an empty map `_size - 1` underflows. On a non-empty map the arrays are corrupted: on a map of capacity 10 holding one key, erasing `{3, 0}` sets slot 0's id to 4 and turns the free list into a cycle. When the link is the sentinel, `_data[Capacity]` is written out of bounds. Erase requires that a valid key was issued. `FreshMapAcceptsUnissuedKey` shows that such keys exist.
- SlotMaps.SlotMap.Clear: it is proved to keep the invariant only on an empty map. After use the source's `clear()` leaves `size` and the generations as they were, and the map inconsistent.
- The generation counter and the indices are unbounded naturals, so uint64 wrap-around is not modelled. Stale detection is proved only without wrap.
- Debug.CenterHeader and Debug.LogHeader: each `char` of the message stands for one byte of the `std::string`. The source measures the message with `length()`, in bytes, so both members require every character to be below 256. Multi-byte UTF-8 text is not modelled. For example, "é" is 2 bytes in the source but would be 1 character to Dafny.
- The `DebugTag` fields between the slot map's fields exist only for memory inspection and are not modelled. Nor is the `#else` branch of `DEBUG`, which drops the tag array and writes the log to a file.
- The copy and move semantics of `T`, and the `constexpr`, `noexcept` and `[[nodiscard]]` annotations. `T` is an opaque value, and `push_back(T const&)` and `push_back(T&&)` are one method.
- `std::runtime_error` thrown by a full `push_back` is the `Err(CapacityExceeded)` result.
- vecs/include/vecs/result.hpp, entities.hpp and error.hpp are not part of this model. They are a union-lifetime helper and two files with no stable behaviour.
- examples/main.cpp is only the source of the `ExampleTrace` scenario. Its names `name__i` are written as the integers `i`, and its sleeps, console clearing and printing are left out.

## Findings

| source | as written | input that shows it | evidently intended | confidence | as-written member | corrected member |
|---|---|---|---|---|---|---|
| vecs/include/vecs/utils/memory_viewer.hpp:48 | the comment says the function could be reduced to `(size * width - 1) / width` | size 24, width 16: the shortcut gives 23, the function 2 | `(size + width - 1) / width`, the ceiling of size / width | not executed; the comment is wrong whenever size - 1 differs from the ceiling of size / width, for example for every size > 0 at width 1 and for 24 at 16; the code above it is right | MemoryViewer.ShortcutIsNotLineCount | MemoryViewer.CorrectedShortcut |
