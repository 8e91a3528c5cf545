# PowerPC device-tree memory-range planner, in Dafny

Before kexec-tools can load a new kernel on 32-bit PowerPC, it must know which physical memory is RAM it may write into. `kexec/arch/ppc/kexec-ppc.c` works this out from `/proc/device-tree` in four steps:

1. `count_memory_ranges` sizes three range buffers by counting the `memory` nodes.
2. `get_base_ranges` reads each memory node's `reg` into the base RAM list, sorts that list and takes `memory_max` from it.
3. `get_devtree_details` builds the exclusion list from several sources and sorts it:
   - the `chosen` node gives the kernel, the hash table and optionally a retained initrd, and on a crash boot the crash-kernel bounds;
   - the `rtas` node gives the firmware region;
   - each `pci@` node gives its TCE table;
   - the memory nodes give `rmo_top`, the ceiling of the real-mode area.
4. `setup_memory_ranges` emits the holes between the exclusions, clipped at `rmo_top`, as the usable RAM ranges. When it emits nothing, a single fallback range takes their place.

The model has six modules, one per part of the planner:

- `ByteOrder` covers fixed-width unsigned integers and big-endian cells. Its `byte` type is one byte of a property's contents.
- `DeviceTree` models the device tree as a sequence of top-level nodes. Each node is a map from property name to bytes. It also holds the `strncmp` name tests and the property readers.
- `Ranges` holds `struct memory_range` and the sort order.
- `Sorting` is the in-place bubble sort over an `array` that both sort functions use.
- `Collect` describes the two scans as pure folds over the nodes. `ScanBase` is the base scan. `ScanDetails` is the exclusion scan; it keeps its state in `Details` and changes it with one `NodeStep` per node.
- `Synthesis` gives the emitted ranges as functions (`EmitFrom`, `Emitted`, `Synthesize`) and proves what they mean.

`Planner.RangePlanner` is a class whose fields are the C file's statics and globals. It has the three `array` buffers, their fill counts, `max_memory_ranges`, `memory_max`, and a `Globals` record (`rmo_top`, `crash_base`, `crash_size`, `rtas_base`, `rtas_size`, `mem_min`, `mem_max`). Its methods run the C functions step by step, with loops and array writes, and each is proved to end in the state the folds of `Collect` and `Synthesis` compute.

`Findings` models three places where the code as written does something other than what it evidently intends. Each sits beside the corrected behaviour, which the rest of the model uses.

The host is 32-bit big-endian: `unsigned long` and `unsigned int` are 4 bytes, and cells are big-endian. C unsigned wrap-around is written out as `Wrap32` and `Wrap64`.

## Model

| member | source | states |
|---|---|---|
| ByteOrder.Wrap32 | kexec/arch/ppc/kexec-ppc.c:514 | an `unsigned int` sum equals the true sum modulo 2^32, and equals the true sum when it fits |
| ByteOrder.Wrap64 | kexec/arch/ppc/kexec-ppc.c:386-391 | a `uint64_t` sum or difference equals the true value modulo 2^64, and equals it when it fits |
| ByteOrder.BeUintOfBeBytes | kexec/arch/ppc/kexec-ppc.c:264-268 | decoding the big-endian bytes of a value that fits in `width` bytes gives the value back |
| ByteOrder.BeBytesOfBeUint | kexec/arch/ppc/kexec-ppc.c:264-268 | encoding the decoded value at the same width gives the bytes back |
| DeviceTree.StrnEqual | kexec/arch/ppc/kexec-ppc.c:316-320 | `strncmp(s, t, n) == 0` on NUL-free names: at most `n` characters compared, a string's end counting as its NUL; `StrnEqualIsPrefix` proves what it means for a literal |
| DeviceTree.IsMemoryNode | kexec/arch/ppc/kexec-ppc.c:77-78 | the memory-node test of both scans and of the count; its meaning is `MemoryNodeNames` |
| DeviceTree.IsDetailsCandidate | kexec/arch/ppc/kexec-ppc.c:316-320 | the five-prefix filter of the exclusion scan; its meaning is `DetailsCandidateNames` |
| DeviceTree.IsChosenNode | kexec/arch/ppc/kexec-ppc.c:329 | the `chosen` branch test, a 6-character prefix comparison |
| DeviceTree.IsRtasNode | kexec/arch/ppc/kexec-ppc.c:487 | the `rtas` branch test, a 4-character prefix comparison |
| DeviceTree.IsPciNode | kexec/arch/ppc/kexec-ppc.c:548 | the `pci@` branch test, a 4-character prefix comparison; `NodeKindsExclusive` shows the branch tests never overlap |
| DeviceTree.StrnEqualIsPrefix | kexec/arch/ppc/kexec-ppc.c:316-320 | `strncmp(name, lit, strlen(lit)) == 0` holds exactly when `lit` is a prefix of `name` (both directions) |
| DeviceTree.MemoryNodeNames | kexec/arch/ppc/kexec-ppc.c:77-78 | a name counts as a memory node exactly when it is `memory` or starts with `memory@` |
| DeviceTree.DetailsCandidateNames | kexec/arch/ppc/kexec-ppc.c:316-321 | the exclusion scan opens a node exactly when its name starts with `chosen`, `memory`, `pci@` or `rtas` |
| DeviceTree.MemoryNodesAreDetailsCandidates | kexec/arch/ppc/kexec-ppc.c:316-320 | every node the base scan reads is also opened by the exclusion scan |
| DeviceTree.ControllerNodeIsOpenedButNotMemory | kexec/arch/ppc/kexec-ppc.c:316-329 | `memory-controller@0` passes the prefix filter but none of the four branches takes it |
| DeviceTree.OpenProp | kexec/arch/ppc/kexec-ppc.c:397-407 | opening fails with ENOENT exactly when the property is absent, and succeeds exactly when its file opens |
| DeviceTree.ReadCells | kexec/arch/ppc/kexec-ppc.c:336-341 | a read of `width` bytes succeeds exactly when the file holds at least that many, and the value's big-endian bytes are the file's first `width` bytes |
| DeviceTree.ReadULong | kexec/arch/ppc/kexec-ppc.c:336-341 | an `unsigned long` read succeeds exactly when the file holds at least 4 bytes, and its value is the first 4 read big-endian |
| DeviceTree.ReadUInt | kexec/arch/ppc/kexec-ppc.c:493-497 | an `unsigned int` read succeeds exactly when the file holds at least 4 bytes, and its value is the first 4 read big-endian |
| DeviceTree.ReadSized | kexec/arch/ppc/kexec-ppc.c:445-454 | an initrd bound read at its file's length succeeds exactly for 1 to 8 bytes, and its value is those bytes read big-endian |
| DeviceTree.DecodeRmoTop | kexec/arch/ppc/kexec-ppc.c:527-542 | `reg` gives an `rmo_top` exactly when it is 8 or 16 bytes long (otherwise an error), and the value is at most 0x30000000 |
| DeviceTree.RmoTopOfCells32 | kexec/arch/ppc/kexec-ppc.c:531-533 | an 8-byte `reg` (base, size) gives `min(base + size, 0x30000000)` |
| DeviceTree.RmoTopOfCells64 | kexec/arch/ppc/kexec-ppc.c:534-536 | a 16-byte `reg` gives `min((base + size) mod 2^64, 0x30000000)` |
| DeviceTree.BaseRegWords | kexec/arch/ppc/kexec-ppc.c:264-268 | the two words taken from `reg` are its first two 32-bit cells, whatever its length |
| Collect.CountMemoryNodes | kexec/arch/ppc/kexec-ppc.c:76-81 | the number of entries `count_memory_ranges` adds a slot for; `RegNodesAreCounted` proves it covers every base range, and `CountMemoryRanges` is proved to add it |
| Collect.ScanBaseFrom | kexec/arch/ppc/kexec-ppc.c:230-278 | the base scan's directory loop as a fold that stops at the first node that cannot be read; `ScanBaseFromGrows` and `ScanBaseFromFails` state what it yields |
| Collect.ScanBase | kexec/arch/ppc/kexec-ppc.c:226-279 | the whole base scan, failing when the root cannot be opened; `GetBaseRanges` is proved to compute it |
| Collect.RegNodesAreCounted | kexec/arch/ppc/kexec-ppc.c:76-81 | the memory-node count is at least the number of ranges the base scan stores |
| Collect.RegNodeIsCounted | kexec/arch/ppc/kexec-ppc.c:230-270 | a memory node with `reg` makes the base scan store at least one range |
| Collect.RegSpan | kexec/arch/ppc/kexec-ppc.c:264-268 | the base range is `[base, base + size]` of the two 32-bit cells, with no wrap-around |
| Collect.BaseEntry | kexec/arch/ppc/kexec-ppc.c:230-276 | one node adds at most one base range |
| Collect.ScanBaseFromGrows | kexec/arch/ppc/kexec-ppc.c:230-278 | a successful base scan keeps what it had and adds exactly one range per memory node with `reg`, each one taken from some node's `reg` |
| Collect.ScanBaseFromFails | kexec/arch/ppc/kexec-ppc.c:236-250 | a memory node whose directory or `reg` cannot be opened fails the whole base scan |
| Collect.RegSpanOfCells | kexec/arch/ppc/kexec-ppc.c:264-268 | a `reg` holding the cells (base, size) yields exactly `[base, base + size]` |
| Collect.BaseRangeOfReg | kexec/arch/ppc/kexec-ppc.c:226-280 | a tree whose one memory node has an 8-byte `reg` yields exactly that `reg`'s range |
| Collect.Append | kexec/arch/ppc/kexec-ppc.c:345-349 | an append adds one range at the end; it overruns exactly when the buffer is already full; with the growth check it leaves room for the next append |
| Collect.Narrow | kexec/arch/ppc/kexec-ppc.c:384-387 | `mem_min` becomes the larger of itself and `crash_base`, and `mem_max` the smaller of itself and `crash_base + crash_size` |
| Collect.CrashStep | kexec/arch/ppc/kexec-ppc.c:350-392 | the crash-kernel part of `chosen` as a function of the node's properties; `CrashNarrowsBounds` and `CrashStepGrows` state what it does |
| Collect.InitrdStep | kexec/arch/ppc/kexec-ppc.c:435-484 | the retained-initrd part of `chosen`; `InitrdStepGrows` states what it does |
| Collect.HtabStep | kexec/arch/ppc/kexec-ppc.c:393-433 | the hash-table part of `chosen`; `HtabStepGrows`, `NoHtabSkipsRestOfChosen` and `OpenFailureIsFatal` state what it does |
| Collect.ChosenStep | kexec/arch/ppc/kexec-ppc.c:329-485 | the whole `chosen` branch; `ChosenStepGrows` states what it does |
| Collect.RtasStep | kexec/arch/ppc/kexec-ppc.c:487-518 | the `rtas` branch, with the `unsigned int` end wrapping at 2^32; `RtasStepGrows` states what it does |
| Collect.MemoryStep | kexec/arch/ppc/kexec-ppc.c:520-546 | the memory branch, which sets `rmo_top` and appends nothing; `MemoryNode0Step` shows it on one node |
| Collect.TceStep | kexec/arch/ppc/kexec-ppc.c:548-588 | the `pci@` branch; `TceStepGrows`, `NoTceSkipsNode` and `OpenFailureIsFatal` state what it does |
| Collect.NodeStep | kexec/arch/ppc/kexec-ppc.c:315-589 | one iteration of the exclusion scan's directory loop; `NodeStepGrows` states what it does and `VisitNode` is proved to compute it |
| Collect.ScanDetailsFrom | kexec/arch/ppc/kexec-ppc.c:315-589 | the exclusion scan's loop as a fold that stops at the first error; `ScanGrows` states what it does |
| Collect.ScanDetails | kexec/arch/ppc/kexec-ppc.c:292-590 | the whole exclusion scan before its sort; `ScanGrows` states what it does and `GetDevtreeDetails` is proved to compute it |
| Collect.NodeKindsExclusive | kexec/arch/ppc/kexec-ppc.c:329-548 | at most one of the `chosen`, `rtas`, memory and `pci@` branches applies to any name |
| Collect.AppendGrows | kexec/arch/ppc/kexec-ppc.c:345-349 | an append keeps the earlier exclusions and the placement bounds |
| Collect.CrashStepGrows | kexec/arch/ppc/kexec-ppc.c:350-392 | the crash step keeps the exclusions and only raises `mem_min` and lowers `mem_max` |
| Collect.InitrdStepGrows | kexec/arch/ppc/kexec-ppc.c:435-484 | the initrd step only appends and, with the growth check, stays within the buffer |
| Collect.HtabStepGrows | kexec/arch/ppc/kexec-ppc.c:393-433 | the hash-table step only appends and stays within the buffer |
| Collect.ChosenStepGrows | kexec/arch/ppc/kexec-ppc.c:329-485 | the `chosen` branch only appends, changes the bounds only on a crash boot, and stays within the buffer |
| Collect.RtasStepGrows | kexec/arch/ppc/kexec-ppc.c:487-518 | the `rtas` branch only appends, and stays within the buffer when every append is followed by the growth check |
| Collect.TceStepGrows | kexec/arch/ppc/kexec-ppc.c:548-588 | the `pci@` branch only appends, and stays within the buffer when every append is followed by the growth check |
| Collect.NodeStepGrows | kexec/arch/ppc/kexec-ppc.c:315-589 | one node only appends exclusions and changes the bounds only when it is `chosen` on a crash boot |
| Collect.ScanGrows | kexec/arch/ppc/kexec-ppc.c:315-589 | over the whole scan the exclusions only grow, `mem_min` never falls and `mem_max` never rises, neither changes without a crash boot, and with growth after every append no write goes past the buffer |
| Collect.CrashNarrowsBounds | kexec/arch/ppc/kexec-ppc.c:350-392 | on a crash boot, `chosen` records `crash_base` and `crash_size`, narrows `mem_min`/`mem_max` to the crash window, and logs `add_usable_mem_rgns(0, base + size)` and then `reserve(KDUMP_BACKUP_LIMIT, base - KDUMP_BACKUP_LIMIT)` |
| Collect.NoHtabSkipsRestOfChosen | kexec/arch/ppc/kexec-ppc.c:397-404 | a `chosen` node without `linux,htab-base` succeeds after adding only the kernel range, on a crash boot too once the crash-kernel bounds read (they add no exclusion) |
| Collect.NoTceSkipsNode | kexec/arch/ppc/kexec-ppc.c:550-557 | a `pci@` node without `linux,tce-base` succeeds and changes nothing |
| Collect.OpenFailureIsFatal | kexec/arch/ppc/kexec-ppc.c:398-406 | any other failure to open `linux,htab-base` or `linux,tce-base` fails the node and so the scan |
| Sorting.SwapPairs | kexec/arch/ppc/kexec-ppc.c:141-146 | two neighbours exchange their (start, end) pairs, their types stay, nothing else changes, and the pairs are permuted |
| Sorting.BubblePass | kexec/arch/ppc/kexec-ppc.c:139-148 | one inner pass moves the greatest start of the prefix to its end, leaves the suffix alone and permutes the pairs |
| Sorting.BubbleSortByStart | kexec/arch/ppc/kexec-ppc.c:134-151 | the first `n` entries end sorted by start as a permutation of their (start, end) pairs; the types and the entries from `n` on are unchanged |
| Planner.SortedEnds | kexec/arch/ppc/kexec-ppc.c:281-282 | after the sort the last entry's end is the end of the range with the greatest start, and the first entry's start is the least start |
| Planner.Grown | kexec/arch/ppc/kexec-ppc.c:184-199 | the grown buffer is one entry longer and holds the old contents |
| Planner.RangePlanner.constructor | kexec/arch/ppc/kexec-ppc.c:29-58 | the statics start out zero, with no buffers live |
| Planner.RangePlanner.CountMemoryRanges | kexec/arch/ppc/kexec-ppc.c:65-91 | fails with -1 and no change exactly when the root cannot be opened; otherwise adds one slot per memory node, plus one for a new-style tree |
| Planner.RangePlanner.AllocMemoryRanges | kexec/arch/ppc/kexec-ppc.c:104-125 | three fresh, zero-filled buffers of `max_memory_ranges` entries |
| Planner.RangePlanner.ReallocMemoryRanges | kexec/arch/ppc/kexec-ppc.c:180-212 | every buffer gains one entry and keeps its contents (the corrected behaviour) |
| Planner.RangePlanner.ReallocMemoryRangesAsWritten | kexec/arch/ppc/kexec-ppc.c:184-199 | as written: the base list becomes the freshly allocated output block, so its ranges are lost |
| Planner.RangePlanner.CleanupMemoryRanges | kexec/arch/ppc/kexec-ppc.c:93-98 | the buffers are released |
| Planner.RangePlanner.SortRanges | kexec/arch/ppc/kexec-ppc.c:134-151 | the exclusions end sorted by start as a permutation of the pairs they held; the rest is unchanged |
| Planner.RangePlanner.SortBaseRanges | kexec/arch/ppc/kexec-ppc.c:157-175 | the base ranges end sorted by start as a permutation of the pairs they held; the rest is unchanged |
| Planner.RangePlanner.StoreBaseRange | kexec/arch/ppc/kexec-ppc.c:264-270 | writes one RAM entry at the fill index and keeps the entries before it |
| Planner.RangePlanner.PushBaseEntry | kexec/arch/ppc/kexec-ppc.c:230-276 | one node's base entry is stored exactly as `BaseEntry` says, and fails exactly when that does |
| Planner.RangePlanner.CollectBaseRanges | kexec/arch/ppc/kexec-ppc.c:226-279 | the directory loop stores exactly the base list `ScanBaseFrom` gives, all of type RAM, and fails exactly when the fold does |
| Planner.RangePlanner.SettleBaseRanges | kexec/arch/ppc/kexec-ppc.c:280-282 | sorts the base list and sets `memory_max` to the end of the range with the greatest start |
| Planner.RangePlanner.GetBaseRanges | kexec/arch/ppc/kexec-ppc.c:215-287 | returns 0 exactly when the base scan succeeds (otherwise -1 with nothing changed); the list is then a sorted permutation of the scanned ranges, all RAM, and `memory_max` is the end of the range with the greatest start |
| Planner.RangePlanner.AppendExclusion | kexec/arch/ppc/kexec-ppc.c:345-349 | stores one exclusion and grows the buffers when full, so the state is `Append` of the previous one and the base list is untouched |
| Planner.RangePlanner.VisitCrash | kexec/arch/ppc/kexec-ppc.c:350-392 | ends in the state `CrashStep` gives |
| Planner.RangePlanner.VisitInitrd | kexec/arch/ppc/kexec-ppc.c:435-484 | ends in the state `InitrdStep` gives |
| Planner.RangePlanner.VisitHtab | kexec/arch/ppc/kexec-ppc.c:393-433 | ends in the state `HtabStep` gives |
| Planner.RangePlanner.VisitChosen | kexec/arch/ppc/kexec-ppc.c:329-485 | ends in the state `ChosenStep` gives |
| Planner.RangePlanner.VisitRtas | kexec/arch/ppc/kexec-ppc.c:487-518 | ends in the state `RtasStep` gives |
| Planner.RangePlanner.VisitMemory | kexec/arch/ppc/kexec-ppc.c:520-546 | ends in the state `MemoryStep` gives |
| Planner.RangePlanner.VisitPci | kexec/arch/ppc/kexec-ppc.c:548-588 | ends in the state `TceStep` gives |
| Planner.RangePlanner.VisitNode | kexec/arch/ppc/kexec-ppc.c:315-589 | one loop iteration ends in the state `NodeStep` gives |
| Planner.RangePlanner.GetDevtreeDetails | kexec/arch/ppc/kexec-ppc.c:292-612 | returns 0 exactly when the fold `ScanDetails` succeeds (otherwise -1); the globals and capacity are the fold's; on success the exclusions are a sorted permutation of the fold's list and the buffer has room |
| Planner.RangePlanner.EmitGap | kexec/arch/ppc/kexec-ppc.c:667-680 | a gap at or above `rmo_top` is dropped and stops the loop; one straddling it is cut to end at `rmo_top` and stops it; any other gap is emitted whole |
| Planner.RangePlanner.EmitAfter | kexec/arch/ppc/kexec-ppc.c:641-680 | one loop iteration appends what `EmitFrom` emits at that exclusion |
| Planner.RangePlanner.EmitUsableRanges | kexec/arch/ppc/kexec-ppc.c:629-681 | the loop writes exactly `Emitted` of the sorted exclusions, at most one range more than there are exclusions |
| Planner.RangePlanner.ScanTree | kexec/arch/ppc/kexec-ppc.c:620-627 | returns 0 exactly when both scans succeed (otherwise -1); on success the exclusions are a sorted permutation of the exclusion scan's list, the globals are that scan's, `memory_max` is the end of the base range with the greatest start and `base_memory_range[0].start` is the least base start (`ScannedFrom`) |
| Planner.RangePlanner.FillUsableRanges | kexec/arch/ppc/kexec-ppc.c:628-691 | the output is `Synthesize` of the exclusions: 1 to n+1 RAM ranges, with the fallback when nothing was emitted |
| Planner.RangePlanner.SetupMemoryRanges | kexec/arch/ppc/kexec-ppc.c:616-704 | returns 0 exactly when both scans succeed; otherwise returns -1 and frees the buffers; on success the exclusions, globals, `memory_max` and first base start are those the scans of the tree give (`ScannedFrom`), and the output is `Synthesize` of them, 1 to n+1 ranges, all RAM |
| Planner.RangePlanner.PrepareRanges | kexec/arch/ppc/kexec-ppc.c:711-714 | fails with -1 exactly when the root cannot be opened; otherwise the buffers are live and sized to the counted capacity |
| Planner.RangePlanner.GetMemoryRangesDt | kexec/arch/ppc/kexec-ppc.c:708-721 | returns 0 exactly when both scans of the tree succeed; the ranges handed back are then the output buffer, `Synthesize` of exclusions, globals, `memory_max` and first base start that the scans of the tree give (`ScannedFrom`), at most n+1 ranges, all RAM; otherwise -1 and none |
| Planner.ExcludedIsOrderFree | kexec/arch/ppc/kexec-ppc.c:594 | sorting the exclusions does not change which addresses they exclude |
| Planner.PlannedRangesAreComplement | kexec/arch/ppc/kexec-ppc.c:616-704 | for a tree whose scans give `ScannedFrom`, an address at or below `memory_max` and below `rmo_top` lies in a planned range exactly when no exclusion the scan of that tree found holds it (when the loop emitted something and the sorted exclusions are disjoint) |
| Synthesis.LeadingGap | kexec/arch/ppc/kexec-ppc.c:633-639 | the hole below the first exclusion when it does not start at 0; `LeadingGapFirst` states it |
| Synthesis.GapAfter | kexec/arch/ppc/kexec-ppc.c:645-669 | the candidate gap after one exclusion: the trailing gap up to `memory_max` for the last, otherwise the hole before the next unless they are contiguous; `EmitFromInGaps` and `ContiguousEmitNothing` state it |
| Synthesis.EmitFrom | kexec/arch/ppc/kexec-ppc.c:641-681 | the loop from one exclusion on, dropping or clipping at `rmo_top`; `EmitFromShape`, `EmitFromOrdered` and `EmitFromReaches` state it |
| Synthesis.Emitted | kexec/arch/ppc/kexec-ppc.c:629-681 | everything the loop emits; `EmittedOrdered` and `EmittedAvoidsExclusions` state it |
| Synthesis.Synthesize | kexec/arch/ppc/kexec-ppc.c:629-690 | the final list, with the fallback range when nothing was emitted; `SynthesizeShape` and `SynthesizeIsComplement` state it |
| Synthesis.EmitFromShape | kexec/arch/ppc/kexec-ppc.c:641-681 | the loop emits at most one range per remaining exclusion, each RAM, starting below `rmo_top` and ending at or below it |
| Synthesis.SynthesizeShape | kexec/arch/ppc/kexec-ppc.c:629-690 | the output has 1 to n+1 ranges, all RAM |
| Synthesis.OnlyLastReachesRmoTop | kexec/arch/ppc/kexec-ppc.c:651-680 | only the last range the loop emits can reach `rmo_top`: a clipped range ends the list |
| Synthesis.NoExclusionsGiveFallback | kexec/arch/ppc/kexec-ppc.c:683-688 | with no exclusions the output is exactly `[base[0].start, rmo_top]` |
| Synthesis.LeadingGapFirst | kexec/arch/ppc/kexec-ppc.c:633-639 | when the first exclusion does not start at 0, the first output range is `[0, start - 1]` |
| Synthesis.ContiguousEmitNothing | kexec/arch/ppc/kexec-ppc.c:665-666 | contiguous exclusions emit nothing between them |
| Synthesis.EmitFromInGaps | kexec/arch/ppc/kexec-ppc.c:645-669 | every emitted range lies strictly between one exclusion and the next |
| Synthesis.EmitFromOrdered | kexec/arch/ppc/kexec-ppc.c:641-681 | the loop's ranges are proper, ascending and disjoint |
| Synthesis.EmittedOrdered | kexec/arch/ppc/kexec-ppc.c:629-681 | with the leading gap, all emitted ranges are proper, ascending and disjoint |
| Synthesis.EmittedAvoidsExclusions | kexec/arch/ppc/kexec-ppc.c:629-681 | no emitted address lies in any exclusion |
| Synthesis.EmitFromReaches | kexec/arch/ppc/kexec-ppc.c:645-680 | an address in a later gap below `rmo_top` is covered by what the loop emits |
| Synthesis.SynthesizeCoversFreeMemory | kexec/arch/ppc/kexec-ppc.c:629-690 | every address at or below `memory_max`, below `rmo_top` and outside the exclusions is covered |
| Synthesis.SynthesizeIsComplement | kexec/arch/ppc/kexec-ppc.c:629-690 | when the loop emitted something, an address at or below `memory_max` and below `rmo_top` is covered exactly when no exclusion holds it |
| Synthesis.FallbackCanOverlapExclusions | kexec/arch/ppc/kexec-ppc.c:683-688 | the fallback fires whenever nothing was emitted, and can then lie over an exclusion |
| Synthesis.ClippedTrailingGapScenario | kexec/arch/ppc/kexec-ppc.c:645-660 | a trailing gap that straddles `rmo_top` is cut to end at it |
| Synthesis.ContiguousScenario | kexec/arch/ppc/kexec-ppc.c:664-666 | with two contiguous exclusions only the trailing gap is emitted |
| Findings.LoadIntoU64 | kexec/arch/ppc/kexec-ppc.c:450-454 | as written: a `len`-byte property copied over the first `len` bytes of a big-endian `unsigned long long`, the rest keeping what the variable held; `LoadIntoU64LandsHigh` states its effect |
| Findings.LoadIntoU64LandsHigh | kexec/arch/ppc/kexec-ppc.c:450-454 | whatever the variable held, a `len`-byte property loads as its value times 256^(8-len) plus less than 256^(8-len), so any non-zero value shorter than 8 bytes is read wrong |
| Findings.ShortInitrdStartLandsHigh | kexec/arch/ppc/kexec-ppc.c:445-454 | a 4-byte `linux,initrd-start` of 0x1000 is 0x1000 for the corrected reader, and as written 0x1000 * 2^32 plus whatever the low half held, whatever that was |
| Findings.ShortHtabBaseLandsHigh | kexec/arch/ppc/kexec-ppc.c:408-412 | a `linux,htab-base` of 0x1000 is 0x1000 for the corrected reader, and as written 0x1000 * 2^32 plus whatever the low half held, whatever that was |
| Findings.MemoryNode0Step | kexec/arch/ppc/kexec-ppc.c:520-546 | the memory node succeeds and changes only the globals |
| Findings.RtasNodeStepAsWritten | kexec/arch/ppc/kexec-ppc.c:513-515 | as written the `rtas` append adds one range and never grows the buffer |
| Findings.PciNode0StepAsWritten | kexec/arch/ppc/kexec-ppc.c:582-584 | as written the TCE append overruns exactly when the buffer is already full |
| Findings.TceAppendOverrunsAsWritten | kexec/arch/ppc/kexec-ppc.c:582-584 | a one-slot tree whose `rtas` and `pci@0` nodes each append writes past the buffer as written, and does not with growth after every append |
| Findings.ChosenNodeStep | kexec/arch/ppc/kexec-ppc.c:329-349 | a `chosen` node without a hash table appends only the kernel range |
| Findings.KernelAppendReallocates | kexec/arch/ppc/kexec-ppc.c:345-349 | with one memory node the kernel range fills the buffer and the capacity grows to 2, so `realloc_memory_ranges` runs |
| Findings.FallbackStartsAtBase | kexec/arch/ppc/kexec-ppc.c:683-688 | in that tree the output is the fallback range starting at `base_memory_range[0].start` |

## Left out

- Directory and file plumbing is left out: building paths, `closedir`/`fclose`, `perror` messages and the `goto` release labels. The device tree is a value, and a node or property that cannot be opened is a value too (`DirFailure`, `OpenFailure`).
- `readdir` order is the order of the node sequence; the `.` and `..` entries match no name test and are not modelled.
- `stat` failing on a property file that has just been opened is not modelled.
- Planner.RangePlanner.AllocMemoryRanges: always succeeds, because `malloc` failure (kexec-ppc.c:111-120) is not modelled; `ReallocMemoryRanges` likewise never fails.
- Planner.RangePlanner.ReallocMemoryRanges: models the growth the callers rely on (contents kept). The aliasing and lost base list of the code as written are modelled separately, in `ReallocMemoryRangesAsWritten` (see Findings), and the planner uses the corrected form.
- The `usablemem_rgns` realloc (kexec-ppc.c:201-205) is not modelled; `add_usable_mem_rgns` and `reserve` are defined elsewhere, so the model only records each call, with its arguments, in the `calls` log.
- `KDUMP_BACKUP_LIMIT` is a parameter (`Config.backupLimit`), because crashdump-powerpc.h is not part of this model. `reuse_initrd`, `mem_min` and `mem_max` come from kexec.c and are parameters too.
- `use_new_dtb` is a file-static (kexec-ppc.c:53) that this file never assigns, so in the code it is always 0. The model generalises it to a field, `useNewDtb`, which the constructor sets to false; with it true `count_memory_ranges` reserves the extra slot for a retained initrd.
- The realloc branch in `get_base_ranges` (kexec-ppc.c:258-263) cannot fire, because the buffers hold at least one entry per memory node. The model requires this (`maxMemoryRanges >= CountMemoryNodes`).
- A memory `reg` shorter than 8 bytes makes `get_base_ranges` read bytes that were never filled. The model requires every memory `reg` to hold at least 8 bytes (`RegsWide`).
- At least one memory node with `reg` is required, because `memory_max` is read from entry `nr_memory_ranges - 1`.
- On the last iteration, when the last exclusion ends at or above `memory_max`, the loop reads `exclude_range[i+1]`, one past the list (kexec-ppc.c:665). The model emits no gap there.
- `buf` in `get_devtree_details` has `MAXBYTES - 1` bytes but up to `MAXBYTES` are read into it (kexec-ppc.c:300, 527). The overrun is not modelled; a 128-byte `reg` is simply an invalid size.
- DeviceTree.ReadSized: a property longer than 8 bytes overflows the variable `fread` writes into. The model reports it as an error (`BadSize`).
- Reads of `linux,htab-base`, `linux,htab-size`, `linux,tce-base` and short initrd bounds use the property's value (the corrected reading). The as-written high-half load is in Findings.
- The buffers are not freed after a successful call (kexec-ppc.c:708-721), and resources leak on some error paths; ownership and leaks are not modelled.
- The GameCube variant (`get_memory_ranges_gc`), the `get_memory_ranges` dispatcher, the file-type table, option handling (`arch_usage`, `arch_process_options`, options.h), `arch_compat_trampoline`, `arch_update_purgatory` and all `DEBUG` output are outside the planner and not modelled.
- The code behaves as follows where a reader might expect otherwise:
  - `rmo_top` comes from the last memory node the scan visits, not the first.
  - On a crash boot the backup window is passed to `reserve`, not appended to the exclusions.
  - The buffers grow by one entry, not by doubling.
  - The fallback range replaces the output whenever the loop emitted nothing, not only when there are no exclusions (`FallbackCanOverlapExclusions`).
  - The leading gap is not clipped at `rmo_top`.
  - A clipped range ends at `rmo_top` itself.

## Findings

| source | as written | input that shows it | evidently intended | confidence | as-written member | corrected member |
|---|---|---|---|---|---|---|
| kexec/arch/ppc/kexec-ppc.c:445-454 | an initrd bound is `fread` with its file's length into the first bytes of a big-endian `unsigned long long`, so a 4-byte value lands in the high half | `linux,initrd-start` = `00 00 10 00` lands in the high half: 0x1000 * 2^32 plus whatever the low half held, instead of 0x1000 | read the bytes as a value of their own width (the comment at :445 says 4- and 8-byte sizes are expected) | high; not executed | Findings.ShortInitrdStartLandsHigh | DeviceTree.ReadSized |
| kexec/arch/ppc/kexec-ppc.c:408-412 | `htab_base`, `htab_size` (:422-426) and `tce_base` (:561-566) are `unsigned long long` but read with `sizeof(unsigned long)`, 4 bytes, so the value lands in the high half | `linux,htab-base` = `00 00 10 00` lands in the high half: 0x1000 * 2^32 plus whatever the low half held, instead of 0x1000 | read into an `unsigned long`, as `kernel_end` and the crash bounds are | medium; not executed | Findings.ShortHtabBaseLandsHigh | DeviceTree.ReadULong |
| kexec/arch/ppc/kexec-ppc.c:513-515 | the `rtas` and TCE appends (also :582-584) increment `i` without the `i >= max_memory_ranges` check the `chosen` appends have | one memory node (capacity 1), then `rtas` and `pci@0` with a TCE table: the TCE range is written at index 1 of a 1-entry buffer | the same growth check after every append | high; not executed | Findings.TceAppendOverrunsAsWritten | Collect.ScanGrows |
| kexec/arch/ppc/kexec-ppc.c:187-192 | `memory_range` is replaced by a fresh `malloc` block, and `base_memory_range` is then `realloc`ed from that block instead of from the old base list | one memory node and a `chosen` node with `linux,kernel-end` = 0x10000000: the kernel append fills the 1-entry buffer and triggers the realloc, after which the fallback range starts at whatever the fresh block held | `base_memory_range = realloc(base_memory_range, …)`, keeping every list's contents | high; not executed | Planner.RangePlanner.ReallocMemoryRangesAsWritten | Planner.RangePlanner.ReallocMemoryRanges |
