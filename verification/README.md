# Box86 in Dafny

A model of the parts of box86, an x86-to-ARM dynamic recompiler, that hold shared state or graph
algorithms, and of the script that generates its function wrappers. `dafny verify dfyconfig.toml`
checks everything.

**The translator's middle end** (`X86Flags`, `FlagNeed`, `FlowGraph`, `FlagFlow`, `Translator`,
`JumpTargets`, `MiddleEnd`). A block of x86 instructions with in-block jumps is marked for reachability, gets
compact predecessor lists, and is analysed backward for the flags each instruction must compute.
The analysis walks and recurses over an array in place and stops early. It is proved to end on
every graph, to reach the least solution of the flow equations, to miss no live flag, and to compute
none without a reason.

**The memory manager** (`BlockChain`, `BlockIndex`, `Blocks`, `Allocations`, `CustomHeap`,
`CodeMap`, `RangeTree`, `Protection`, `AddressSearch`, `JumpTable`, `JumpTableRace`). Boundary-mark
blocks with a cached index, changed mark by mark, where live payloads and free sub-blocks are known
exactly after every step; on top of them the heap and the map of translated code; the interval maps of
page protection and the search for free address space; the two-level jump table, both sequentially and
under every interleaving of threads.

**The life of translated blocks** (`X31Hash`, `Stores`, `BlockTable`, `Dynablocks`, `StoreWindows`,
`KeptBlocks`, `LostBlocks`). Look-up, translation, checking by hash, marking, invalidation and release, with guest
stores that trap. Every registered block is allocated and not gone, and none is released twice. Stores
of other threads may come between any two accesses of a look-up to the guest's memory, its protection
and the jump table. A block is entered directly only while its pages are write-protected and its bytes
hash to what was recorded, except after a store in one of three windows where the code does not notice
it: after the last check of the pages in `FillBlock` and before the registration, between the hash and
`protectDB` in `DBGetBlock`, and between `isprotectedDB` and the redirection there. The ghost set
`past.tainted` holds the blocks that were let through so. What was recorded is the hash of the bytes
that the translation began with, except after a store in a fourth window: between the begin of the
first pass, which protects the first page only, and the last hash. The ghost set `past.misread` holds
the blocks whose bytes changed then, `past.read` the bytes that each translation began with. For each
window it is proved exactly when that happens, there is an input for which it does, and without stores
in the windows it never does. A block that was replaced waits for its release; it is proved which steps
of a run lose one for ever, and there is a run that does.

**Conditions of wrappers** (`Conditions`, `ConditionText`, `Implicants`, `PrimeSearch`, `ClauseMeaning`,
`Sorting`, `ClauseReducer`, `GreedyChoice`, `GrownList`). `defined()` conditions are printed, parsed, given
the meaning that the preprocessor gives to their text, and minimised with the Quine-McCluskey algorithm,
whose combining and choosing loops are proved to keep exactly the implicants of each level, to collect the
primes, never to raise and to keep the meaning; the outcome is the shortest list when every choice is
forced, and need not be otherwise.

Memory of the allocator is an array of 8-byte cells, the size of a boundary mark; addresses and sizes
are multiples of 8 there, as in the source. Flag masks are bit vectors. A protection word is a record
of its named bits. The red-black trees are seen as their list of runs in order of address.

Places where the code does less, or something else, than one would expect; the model follows the code:

- `updateNeed` (src/dynarec/dynarec_arm.c:362) tests `set_flags` for `SF_PENDING`, a bit of
  `state_flags`.
- The early return of the backward `getMaxFreeBlock` (src/custommem.c:156) can never be taken.
- `expandBlock` (src/custommem.c:239) tests the fill bit of the block itself, so `customRealloc` never
  grows a block in place.
- `protectDB` (src/custommem.c:805) takes a recorded protection of 0 for "unknown" and turns it into
  read-write-execute; `unprotectDB` leaves it so. `Protection.RoundTrip` gives the exact condition.
- `getDBSize` (src/custommem.c:613) comes round to 0 in the last slot of the jump table, where the
  sweeps need not end; `JumpTable.Table.GetDBSize` says exactly when it does, `JumpTable.SweepEnds` for
  which ranges and tables a sweep ends.
- `FindDynablockFromNativeAddress` (src/custommem.c:483) reads the word behind a chunk when asked about
  an address strictly inside its end mark.
- `FillBlock` (src/dynarec/dynarec_arm.c:493) compares addresses with `~box86_pagesize`, which clears one
  bit; a block that needs its second page protected may miss it, and then starts out dirty.
  `Stores.DropBitMisses` says exactly when, `Dynablocks.DirtyWhen` what follows.
- `arm_pass0` (src/dynarec/dynarec_arm_pass.c:203) gives up an extension of the block without forgetting
  the jumps that it noted there. Such a jump to itself makes the block always tested although none of its
  instructions jumps to itself. `MiddleEnd.AlwaysTestIs` says exactly when.
- The jump resolution (src/dynarec/dynarec_arm.c:506) asks for no flags behind a jump into the middle of
  an instruction of the block, although such a jump leaves the translated code. `MiddleEnd.JumpOutcome`
  says which jumps ask.
- `FillBlock` protects all pages of a block only after its first pass (src/dynarec/dynarec_arm.c:494): a
  store to a later page that comes before is hashed although that pass need not have seen it.
  `Dynablocks.MisreadWhen` says exactly when.
- `FillBlock` and `DBGetBlock` have three windows in which a store of another thread is not noticed
  (`StoreWindows`), and `DBGetBlock` (src/dynarec/dynablock.c:279) returns a replacement block without
  checking it again. `StoreWindows.StaleReplacement` and `Dynablocks.Dynarec.DBGetBlock` say what follows.
- The walk that gives leaves of the jump table back (src/custommem.c:672) steps from the first address of
  the range by the size of a slot, and so may leave the last slot out. `JumpTable.LastSlotVisited` says
  exactly when.
- `FreeDynablock` (src/dynarec/dynablock.c:90) releases one block behind the one it frees, while the
  chain of replaced blocks may be longer. `LostBlocks.LostForever` is a run in which a block is lost,
  `Dynablocks.Dynarec.RunKeeps` says exactly which runs lose none.
- `Clauses.reduce` turns a list of clauses that all contradict themselves into the empty list, which
  means "always" (or raises, for a single clause). `ClauseReducer.ClauseList.Reduce` gives the exact
  condition under which the meaning is kept.
- `Clauses.reduce` turns clauses that are always true together into one empty clause, which is printed as
  an `#if` without a condition (rebuild_wrappers.py:1296). `ConditionText.ReducedText` says exactly when,
  `ConditionText.PrintsNothing` is an input.
- `Clauses.reduce` is documented to remove the most possible clauses (rebuild_wrappers.py:574). Its choice
  is greedy: `GrownList.GrowsAList` is a list of three clauses that comes out as five.
  `GreedyChoice.LeastWhenForced` is a condition on the prime implicants under which no shorter list exists.

## Model

| member | source | states |
|---|---|---|
| Translator.Helper.AnalyseFlags | src/dynarec/dynarec_arm.c:548-555 | the predecessor passes and the driver loop together terminate on every jump graph, back edges included, and leave the least solution of the flag equations on the reachable flow graph; every instruction is consistent and every predecessor edge covered; exactly the reachable instructions are alive |
| Translator.Helper.PropagateNeeds | src/dynarec/dynarec_arm.c:553-555 | the driver loop visits every instruction and ends with all of them consistent and nothing left to pass on |
| Translator.Helper.UpdateNeed | src/dynarec/dynarec_arm.c:343-383 | one backward walk with its recursion terminates, keeps every constraint that held, never rises above any solution, and leaves every instruction it passes consistent, in spite of the early return |
| Translator.Helper.AskPredecessors | src/dynarec/dynarec_arm.c:372-378 | each recorded predecessor that is not just above is asked through a recursive walk; says whether the one just above is among them |
| Translator.Helper.Transfer | src/dynarec/dynarec_arm.c:345-367 | the three masks of one instruction after a request are the transfer of its needs; flag by flag: it is generated exactly when it is set there and needed behind, and needed in front exactly when it is read, or needed behind and not certainly overwritten |
| X86Flags.SettleFlag | src/dynarec/dynarec_arm.c:345-352 | when a flag is needed behind an instruction: it is asked for itself, or a pending request came and the instruction computes its flags at once or defers only those that it sets |
| X86Flags.GenFlag | src/dynarec/dynarec_arm.c:353-356 | a flag is generated if and only if the instruction sets it and it is needed behind; deferring, if and only if that is asked for and the instruction can |
| X86Flags.BeforeFlag | src/dynarec/dynarec_arm.c:357-367 | a flag is needed in front if and only if it is read, or needed behind and not certainly overwritten |
| FlagFlow.AnalysisIsLeast | src/dynarec/dynarec_arm.c:343-383 | when all instructions are consistent and nothing is left to pass on, the needs solve the constraints, lie below every other solution, and every predecessor edge is covered, allowing for a pending request that becomes a request for all flags |
| FlagFlow.LeastOnFlow | src/dynarec/dynarec_arm.c:548-555 | least over the recorded predecessors is least over the reachable flow edges of the block |
| FlagFlow.LiveFlagCovered | src/dynarec/dynarec_arm.c:343-383 | no live flag is missed: behind any reachable instruction from which a path leads to a reader of a flag without a certain overwrite, a solution holds the flag or the pending request |
| FlagFlow.LiveFlagHeld | src/dynarec/dynarec_arm.c:368-370 | on paths without flag barriers the flag itself is held |
| FlagFlow.NeedHasReason | src/dynarec/dynarec_arm.c:343-383 | nothing is needed without a reason: every flag that the least solution holds, and every pending request, is asked for along a path that begins there |
| FlagFlow.FilledPreds | src/dynarec/dynarec_arm.c:322-340 | the filled array lists for every instruction exactly the alive instructions that flow into it |
| FlagNeed.WorkShrinks | src/dynarec/dynarec_arm.c:363-366 | every visit that goes on adds a bit to some mask: why the walk ends |
| Translator.Helper.RecurseMarkAlive | src/dynarec/dynarec_arm.c:283-292 | terminates on any cyclic jump graph and newly marks only what the start reaches, closed under in-block jumps and fall-throughs |
| FlowGraph.MarkedIsReachable | src/dynarec/dynarec_arm.c:283-299 | after marking from instruction 0, alive is the same as reachable by a path of in-block jumps and fall-throughs |
| Translator.Helper.SizePredecessors | src/dynarec/dynarec_arm.c:294-320 | marks, counts jumps and fall-throughs, cuts jumps out of orphans; the counts reserve what the fill needs and the flow of alive instructions is kept |
| Translator.Helper.FillPredecessors | src/dynarec/dynarec_arm.c:322-340 | fills the segments, in bounds and without overlap, with the sources of each instruction in program order, although fall-throughs out of dead code were counted and are not filled |
| Translator.Helper.LayOutSegments | src/dynarec/dynarec_arm.c:324-331 | segments lie end to end in the shared array, every one with the length that was counted |
| Translator.Helper.AddPredecessor | src/dynarec/dynarec_arm.c:332-339 | one more entry in one segment, within its reservation, leaves the other segments alone |
| FlowGraph.SourcesExact | src/dynarec/dynarec_arm.c:332-339 | the list of an instruction holds every source as often as it flows there, and nothing else |
| FlowGraph.SourcesAreEdges | src/dynarec/dynarec_arm.c:332-339 | a source is listed if and only if it is alive and flows there |
| FlowGraph.ReservedEnough | src/dynarec/dynarec_arm.c:300-317 | the two counting passes reserve at least the number of entries that the fill writes |
| FlowGraph.CountedKeepsFlow | src/dynarec/dynarec_arm.c:299-317 | cutting orphan jumps changes no flow edge of an alive instruction |
| JumpTargets.FindInstruction | src/dynarec/dynarec_arm.c:506-531 | the dichotomy finds the instruction at an address if there is one, and -1 only if there is none |
| JumpTargets.ResolveJump | src/dynarec/dynarec_arm.c:497-541 | one noted jump, also one behind the end of the block: leaves the block (or loops on itself) and asks for a pending request, or points to its target and puts a full barrier there |
| JumpTargets.ResolveJumps | src/dynarec/dynarec_arm.c:496-542 | all noted jumps, wherever in the array: every instruction's target, barrier and pending request in terms of the block before; the block is always to be tested if and only if a noted jump goes to itself |
| MiddleEnd.ResolvedTargets | src/dynarec/dynarec_arm.c:496-542 | the resolved jumps make a flow graph, whatever jumps were given up: every instruction that jumps leaves the block or has an index in it, that of the instruction at its target address |
| MiddleEnd.JumpOutcome | src/dynarec/dynarec_arm.c:497-541 | a jump to the address of another instruction gets its index, any other one -1; a pending request is put behind it if and only if it leaves the range of the block or goes to itself, so that a jump into the middle of an instruction asks for nothing |
| MiddleEnd.BarrierOutcome | src/dynarec/dynarec_arm.c:532-540 | an instruction gets a full barrier exactly when a noted jump of another one goes to it that is not marked as needing none |
| MiddleEnd.AlwaysTestIs | src/dynarec/dynarec_arm_pass.c:203-215 | the block is always tested if and only if one of its instructions jumps to itself, or one that was given up with an extension did |
| MiddleEnd.SpuriousAlwaysTest | src/dynarec/dynarec_arm.c:496-503 | an input: a jump to itself that was given up, and the block is always tested although none of its instructions jumps to itself |
| MiddleEnd.ResolveAndAnalyse | src/dynarec/dynarec_arm.c:496-555 | jump resolution and flag analysis on one array: the needs are the least solution on the flow graph of the resolved jumps; every flag that is live behind a reachable instruction is needed there and, where it is set, computed or deferred; no flag is computed or needed without a reason; what lies behind the block is only resolved |
| JumpTable.Table.SetIfRef | src/custommem.c:731-737 | acts on the flat table: the one entry is replaced if it was the reference; tells whether the value is there now; exactly its slot has a leaf of its own afterwards besides those that had |
| JumpTable.Table.AddIfDefault | src/custommem.c:705-712 | registers on the flat table if nothing is registered; tells whether it is there now |
| JumpTable.Table.SetDefault | src/custommem.c:713-721 | unregisters on the flat table, without creating a leaf |
| JumpTable.Table.SetDefaultRef | src/custommem.c:722-730 | unregisters one target if it is there |
| JumpTable.Table.CreateLeaf | src/custommem.c:687-703 | gives a slot without one a new leaf, keeps the leaf of a slot that has one, and changes neither another slot nor the flat table; the shared leaf is never written |
| JumpTable.Table.IsLeafEmpty | src/custommem.c:643-651 | true exactly of a private leaf without registrations |
| JumpTable.Table.ReclaimLeaf | src/custommem.c:673-682 | exactly an empty private leaf is given back; the flat table stays as it was |
| JumpTable.Table.ReclaimLeaves | src/custommem.c:668-684 | of the slots that the walk comes to, exactly the empty private leaves are given back; the flat table stays as it was |
| JumpTable.LastSlotVisited | src/custommem.c:670-683 | the walk comes to every slot of the range but the last, and to that one if and only if the range does not end at a lower place in its slot than it begins |
| JumpTable.Table.IsDefault | src/custommem.c:738-746 | whether the flat entry is the default one |
| JumpTable.Table.Get | src/custommem.c:780-787 | reads the flat entry |
| JumpTable.Table.GetDBSize | src/custommem.c:613-633 | never skips a registration, always moves on, and comes round to 0 exactly from the last slot: at its last entry or when it is searched to its end |
| JumpTable.SweepEnds | src/custommem.c:613-667 | rounds of the search over a range end if and only if the range ends below the last slot, or that slot has a leaf of its own and the end is not the last address or the address in front of it is registered |
| JumpTableRace.StepKeepsInv | src/custommem.c:687-712 | any thread may take any next step: published leaves stay distinct, held leaves private, the shared leaf untouched |
| JumpTableRace.LeavesOverRun | src/custommem.c:687-703 | over any interleaving each slot is published at most once, what is given back was never published, and no leaf is lost |
| JumpTableRace.LosersFreed | src/custommem.c:691-700 | once all threads are idle, exactly the leaves that lost the race have been freed |
| JumpTableRace.StepIsAtomic | src/custommem.c:705-712 | a step changes the flat table only by the compare-and-swap that it logs |
| JumpTableRace.RunIsSequential | src/custommem.c:705-737 | every run is explained by its log: each operation found what the operations before it left at that address |
| JumpTableRace.EntryStays | src/custommem.c:705-737 | over any interleaving the entry that is there stays until a thread completes an operation that names it as its reference |
| JumpTableRace.InstalledStays | src/custommem.c:705-737 | no entry that a successful compare-and-swap installed is lost: at the end of any interleaving it is there unless a later operation named it as its reference |
| JumpTableRace.IdleIsLogged | src/custommem.c:687-712 | a thread becomes idle only by completing the operation that it is at: that is the one new event of the log |
| JumpTableRace.RunAccounts | src/custommem.c:687-712 | over any interleaving, what a thread began is what it completed, in that order, and what it is at |
| JumpTableRace.Completes | src/custommem.c:687-712 | whatever the other threads do, an operation is completed within five steps of its own thread |
| JumpTableRace.AllocatesForEmptySlot | src/custommem.c:689-690 | a leaf is allocated exactly by a creating operation that sees its slot empty |
| JumpTableRace.FromStart | src/custommem.c:687-737 | from the empty table, under any interleaving: every operation that a thread began is in the log, in its order, but for the one it is at; the log explains every entry, no leaf that was given back is in use, and once all threads are idle exactly the losing leaves have been given back |
| BlockChain.LiveDisjoint | src/custommem.c:78-92 | live payloads lie between the marks of their block and are pairwise disjoint |
| BlockChain.SplitLive | src/custommem.c:174-187 | filling a sub-block up to a new mark adds exactly its payload, keeps the chain and every cell of the others |
| BlockChain.FilledLive | src/custommem.c:188-190 | filling a sub-block without a new mark does the same |
| BlockChain.EmptiedLive | src/custommem.c:206-207 | emptying a sub-block takes exactly its payload away |
| BlockChain.JoinedLive | src/custommem.c:208-221 | joining two free sub-blocks changes no payload |
| BlockChain.SpareDecided | src/custommem.c:199-221 | where no two free sub-blocks are neighbours, the live payloads decide where the marks and the free sub-blocks are |
| BlockIndex.AllocKeepsIndex | src/custommem.c:167-198 | an allocation leaves the index right unless it takes the largest or the first free sub-block |
| BlockIndex.ServedEnough | src/custommem.c:167-190 | at most 128 bytes more than asked for are handed out; what is larger is cut to exactly the size asked for, and the rest stays free behind it |
| BlockIndex.FreeingEnds | src/custommem.c:199-227 | after a free no two free sub-blocks are neighbours, `first` is the first one and the largest size is the old one or the result |
| Blocks.Block.GetFirstBlock | src/custommem.c:105-118 | finds the first free sub-block that is large enough, or none |
| Blocks.Block.GetNextFreeBlock | src/custommem.c:120-127 | finds the first free sub-block from a mark on, or the end mark |
| Blocks.Block.MaxFreeForward | src/custommem.c:140-149 | the size of the largest free sub-block from a mark on |
| Blocks.Block.MaxFreeBackward | src/custommem.c:150-162 | the size of the largest free sub-block of the block; the early return is never taken |
| Blocks.Block.AllocBlock | src/custommem.c:167-198 | cells and marks after an allocation, cut or not; `first` moves to the next free sub-block if it was taken |
| Blocks.Block.FreeBlock | src/custommem.c:199-227 | removes one payload, keeps every other cell, merges with free neighbours, moves `first` back if needed, and the largest size is the old one or the result |
| Blocks.Block.Take | src/custommem.c:348-363 | customMalloc within a block: one new payload in the first free sub-block that serves, as large as asked or at most 128 bytes larger; what is cut off follows it as a free sub-block, all other free sub-blocks and all other contents are kept, index exact |
| Blocks.Block.TakeCode | src/custommem.c:518-531 | AllocDynarecMap within a chunk: the same, `first` being at or before the first free sub-block |
| Blocks.Block.Give | src/custommem.c:442-449 | customFree within a block: the payload is gone, all other contents kept, index exact |
| Blocks.Block.PrintBlockCoherent | src/custommem.c:271-304 | the allocator's own check accepts a walkable block if and only if no two free sub-blocks are neighbours and the index is exact |
| Blocks.Block.SizesAddUp | src/custommem.c:271-304 | sub-block sizes and marks add up to the size of the block |
| Blocks.Block.EmptyIsOneFree | src/custommem.c:199-221 | a block without a live payload is one single free sub-block |
| Blocks.Block.ExpandBlock | src/custommem.c:229-262 | a live payload may stay exactly when it is already large enough, whatever its size is rounded to; the half that would make it larger is never reached |
| Blocks.Block.BytesAddUp | src/custommem.c:306-325 | free sub-blocks, used ones and marks make up a block |
| Blocks.Block.Refresh | src/custommem.c:417-421 | looking the index up again after a request served in place changes nothing |
| Allocations.RoundSizeLeast | src/custommem.c:326-337 | the rounded size is the least multiple of 8 that serves the request and is not below the threshold; rounding is idempotent |
| CustomHeap.Heap.AllocsDisjoint | src/custommem.c:341-398 | live allocations are 8-byte aligned, inside their block and pairwise disjoint, across blocks |
| CustomHeap.Heap.Malloc | src/custommem.c:341-398 | a new live allocation of the rounded size or at most 128 bytes more, in the first free sub-block that serves of the first block that has one, the rest of it staying free; every other one keeps its contents; a block is mapped exactly when no existing block has a fitting free sub-block, of 64 KB or as large as the request needs |
| CustomHeap.Heap.Release | src/custommem.c:436-457 | a live allocation is gone, every other one keeps its contents; NULL and unknown addresses change nothing |
| CustomHeap.Heap.Realloc | src/custommem.c:406-435 | the result is live, large enough and begins with all that the old allocation held; it moves exactly when it is too small, and is then at most 128 bytes larger than asked; every other allocation keeps its contents |
| CustomHeap.Heap.Locate | src/custommem.c:440-444 | finds the only block that an address lies in |
| CustomHeap.Heap.Run | src/custommem.c:341-457 | any sequence of malloc, realloc and free on live pointers: the check accepts every block at the end, and the pointers given out lead to distinct, disjoint allocations, which are all the live ones |
| CustomHeap.Heap.TestAllBlocks | src/custommem.c:306-325 | after any history the allocator's check accepts every block, and the sums it shows are the bytes of all blocks, the bytes in free sub-blocks and the largest free one; free, used and mark bytes are all there is |
| CustomHeap.Heap.BlockWithoutAllocs | src/custommem.c:199-227 | a block that no live allocation lies in is one free sub-block and its largest size says so |
| CodeMap.ChunkFits | src/custommem.c:532-536 | the size of a new chunk holds the request with its marks, is a multiple of the page size, and is no page larger than it must be |
| CodeMap.Map.AllocDynarecMap | src/custommem.c:504-586 | a new live allocation, at most 128 bytes larger than the rounded request, in the first free sub-block that serves of the first chunk that has one, the rest of it staying free; no owner of another one touched; 0 exactly for an empty request or when nothing fits and mapping fails; no chunk is mapped while one can serve |
| CodeMap.Map.FindChunk | src/custommem.c:513-585 | the walk over the nodes ends at the first chunk that can serve or is unused, adding a node only at the end |
| CodeMap.Map.FreeDynarecMap | src/custommem.c:588-611 | exactly this allocation and its owner are gone |
| CodeMap.Map.SetOwner | src/dynarec/dynarec_arm.c:601-601 | the owner word of one allocation changes, no other one |
| CodeMap.Map.Walk | src/custommem.c:480-491 | reads the first word of the sub-block that the address lies in, nothing on a mark's address, and beyond the chunk from inside its end mark |
| CodeMap.Map.FindDynablockFromNativeAddress | src/custommem.c:466-499 | for every address inside a live code allocation the owner of exactly that allocation; nothing for addresses in no chunk; it reads behind the chunk exactly from strictly inside an end mark |
| RangeTree.GetEnd | src/tools/rbtree.c:569-591 | the value at an address and the end of its run, or the start of the next run (the top of memory if none) |
| RangeTree.AtSet | src/tools/rbtree.c:593-724 | rb_set, with its joining, cutting and splitting, changes exactly the addresses of the range and keeps the runs in order |
| RangeTree.SetFits | src/tools/rbtree.c:612-723 | every case of rb_set replaces a stretch of runs by one that fits between its neighbours |
| Protection.Tracker.ProtectDB | src/custommem.c:789-821 | the interval loop ends for any fragmentation and is a per-address update of exactly the pages in range: a page with emulator bits keeps what is enforced; any other one loses the write permission and nothing else, an unknown one becomes readable and executable only; what is recorded remembers whether it could be written |
| Protection.Tracker.UnprotectDB | src/custommem.c:825-860 | the same for giving back (without marking): exactly the pages recorded as taken away are enforced again as recorded, no other permission changes, and the emulator bits are gone |
| Protection.Tracker.IsProtectedDB | src/custommem.c:862-882 | true if and only if every page of the range is recorded with an emulator bit |
| Protection.RoundTrip | src/custommem.c:800-817 | unprotecting after protecting restores both records of a page without emulator bits if and only if the recorded value was not 0 |
| Protection.ProtectMeans | src/custommem.c:789-860 | bit by bit, what protecting and unprotecting do to the recorded and the enforced permissions of one page |
| Protection.Tracker.ProtectUnprotect | src/custommem.c:789-860 | for a whole range: protect then unprotect restores everything if and only if nothing in it was recorded as 0 |
| Protection.ProtectGuards | src/custommem.c:789-821 | a protected page traps whenever a write would be allowed, unprotecting notices it, and protecting again changes nothing |
| AddressSearch.FindBlockHinted | src/custommem.c:1061-1085 | ends without address wrap; a result is the lowest free candidate among the raised hint and the aligned addresses above it; NULL only when no candidate is free: from a hint below the kernel's space none below it, otherwise none at which the alignment does not wrap |
| AddressSearch.Find32bitBlock | src/custommem.c:1090-1095 | the lowest free 64K boundary from 0x40000000 on; below it the lowest one from 0x10000 on, only when none from there to the kernel's space is free; NULL only when none below the kernel's space is free |
| AddressSearch.NoneBetween | src/custommem.c:1082-1082 | rounding up skips no aligned address |
| X31Hash.X31HashCode | src/dynarec/dynablock.c:35-42 | the hash is the polynomial in 31 of the bytes, cut to 32 bits |
| X31Hash.X31NoticesOneByte | src/dynarec/dynablock.c:35-42 | a change of exactly one byte always changes the hash |
| BlockTable.HitsIntersecting | src/dynarec/dynablock.c:122-127 | the interval test finds exactly the blocks that share a byte with the range or with one of the two bytes behind it |
| BlockTable.CurrentAfter | src/libtools/signals.c:849-868 | a block whose bytes cannot be written is current after any stores of other threads exactly when it hashed as recorded and no store that is done is on one of its pages |
| Stores.WroteTrapped | src/libtools/signals.c:849-868 | a store that traps on a guarded page: at every address, which byte is there, whether it is writable, whether it is guarded, and whether stores are done, which does not change |
| Stores.HashApplied | src/dynarec/dynablock.c:34-42 | stores behind a hash that change no byte leave it right; stores that change exactly one byte make it wrong |
| Stores.DropBitMisses | src/dynarec/dynarec_arm.c:493-494 | the test for a second page takes a block for one that stays on its first page exactly when it is one page long and begins on an even page |
| Stores.DropBitWitness | src/dynarec/dynarec_arm.c:493-494 | an input of the test: 0x2800 and 0x3800 are on different pages of 4096 bytes, and it takes them for one |
| StoreWindows.DirtyUndisturbed | src/dynarec/dynarec_arm.c:493-494 | undisturbed, a translation starts out dirty exactly when it is to be tested always or it is one page long, begins within an even page and its second page is not guarded already |
| StoreWindows.SecondPageMissed | src/dynarec/dynarec_arm.c:493-494 | an input: 0x1000 bytes from 0x2800 on are translated and nobody writes; the block is dirty |
| Dynablocks.DirtyExactly | src/dynarec/dynarec_arm.c:456-494 | whether the pages of a block are guarded at the last check, in terms of the state before the translation and the stores made during it |
| Dynablocks.MisreadWhen | src/dynarec/dynarec_arm.c:456-495 | of a block that is not dirty, the bytes that were hashed are those that the first pass began with if and only if no store changed one of them before the pages were protected; the hash tells if it was exactly one |
| StoreWindows.StoreDuringFirstPass | src/dynarec/dynarec_arm.c:456-495 | an input: a store to the second page during the first pass, and a block that is entered directly and current whose hash is not that of the bytes that the first pass began with |
| Dynablocks.Dynarec.InvalidDynablock | src/dynarec/dynablock.c:44-60 | unregisters a block and marks it gone and not done, once; the invariant of all blocks is kept |
| Dynablocks.Dynarec.FreeInvalidDynablock | src/dynarec/dynablock.c:62-75 | releases a block only if it is gone; it must still be allocated |
| Dynablocks.Dynarec.FreeDynablock | src/dynarec/dynablock.c:77-97 | unregisters and releases a block with the one it kept; nothing is released twice |
| Dynablocks.Dynarec.MarkDynablock | src/dynarec/dynablock.c:101-120 | the entry of a registered block leads to its check; an unregistered one is released or kept by the block in its place |
| KeptBlocks.FreedLoses | src/dynarec/dynablock.c:77-97 | when every gone block can be reached from one in use, freeing a block keeps it so exactly when the block it kept kept none |
| KeptBlocks.FreedAllLoses | src/custommem.c:653-685 | freeing the blocks of a range at once keeps every gone block reachable exactly when none of them keeps one that keeps another |
| KeptBlocks.ReleasedLoses | src/dynarec/dynablock.c:273-284 | a block that goes without being kept takes along what it kept: nothing is lost exactly when it kept none |
| KeptBlocks.ReplacedLosesNone | src/dynarec/dynablock.c:276-281 | a replacement that keeps the old block keeps all that could be reached from it |
| KeptBlocks.LostLoses | src/dynarec/dynablock.c:105-118 | a block that lost its registration: nothing is lost exactly when the block in its place can keep it, or it kept none |
| Dynablocks.Dynarec.MarkRangeDynablock | src/dynarec/dynablock.c:138-146 | marks a registered block exactly when the interval test hits |
| Dynablocks.Dynarec.FreeRangeDynablock | src/dynarec/dynablock.c:148-159 | frees a registered block exactly when the interval test hits |
| Dynablocks.Dynarec.CleanDBFromAddressRange | src/custommem.c:653-685 | ends; every registered block that shares a byte with the range is marked (or freed), every block wholly before it is untouched, and no other change is made to any entry; freeing releases the blocks whose entry was cleared, each with the one it kept, and no other, says exactly when that loses a gone block, and leaves no empty leaf in the slots it comes to |
| Dynablocks.Dynarec.SweepRange | src/custommem.c:653-667 | the sweep from max_db_size before the range treats every entry it should, in place |
| Dynablocks.Dynarec.UnprotectDB | src/custommem.c:825-860 | gives the write permission of exactly the pages in range back, after marking every block there; the invariant is kept at every run |
| Dynablocks.Dynarec.GuestWrite | src/libtools/signals.c:849-868 | a guest store is done if and only if the system allows it or only the emulator guards the page; what it leaves of bytes, permissions and guards at every address; the blocks of a page that is given back are marked first; the invariant is kept |
| Dynablocks.Dynarec.Writes | src/libtools/signals.c:849-868 | any sequence of stores: every byte has the last value stored there if stores there are done, every page that was written to is writable and not guarded any more, every other address is as it was |
| Dynablocks.Dynarec.FillBlock | src/dynarec/dynarec_arm.c:437-677 | whatever other threads store while the passes run: how it ends and which bytes are hashed are given exactly by what the passes find, the state before and the stores, as is whether the block is dirty; a filled block that is not dirty has write-protected bytes that hash to what was recorded |
| Dynablocks.Dynarec.CheckAgain | src/dynarec/dynarec_arm.c:663-677 | the last check of the pages catches every store since the hash was taken: the block is dirty exactly when it is to be tested always, a page was not guarded, or such a store came to one of its pages |
| Dynablocks.Dynarec.CreateEmptyBlock | src/dynarec/dynarec_arm.c:414-435 | a block whose code is only the way out: never done, never entered directly |
| Dynablocks.Dynarec.Register | src/dynarec/dynablock.c:239-253 | enters the block in the table, dirty or not, raises max_db_size to its size if that is larger, and marks it done only if it has a size |
| Dynablocks.Dynarec.MakeBlock | src/dynarec/dynablock.c:222-253 | nothing, or one new registered block: which of the two, and with which bytes its hash is that of, is given exactly by the state before and the stores; one that is entered directly is current if and only if no store that came after the last check was done on one of its pages |
| StoreWindows.StoreBeforeRegistering | src/dynarec/dynablock.c:239-253 | an input: one store after the last check of the pages, and the block that is registered for direct entry does not hash to what was recorded |
| Dynablocks.Dynarec.InternalDBGetBlock | src/dynarec/dynablock.c:201-260 | returns the registered block and changes nothing, or makes and registers one new block where there is none and one is wanted |
| Dynablocks.Dynarec.Validate | src/dynarec/dynablock.c:285-293 | a block whose bytes hashed as recorded is entered directly again exactly when it is not to be tested always and no store came to its pages while they were protected; it is current then if and only if its bytes still hashed so when they were protected and no later store on its pages was done |
| StoreWindows.StoreWhileValidating | src/dynarec/dynablock.c:271-291 | inputs: one store between the hash and the protection, or one between the last check of the pages and the redirection, and a block that does not hash to what was recorded is entered directly |
| Dynablocks.Dynarec.CheckBlock | src/dynarec/dynablock.c:268-297 | a block found is returned as it was if it is entered directly or not done, validated if its bytes hash to what was recorded, and replaced otherwise |
| Dynablocks.Dynarec.Remake | src/dynarec/dynablock.c:273-284 | the changed block becomes gone, a new one keeps it for later release, or it is released when none is made, as when the lock is taken; no other block is touched |
| Dynablocks.Dynarec.DBGetBlock | src/dynarec/dynablock.c:263-300 | says which block is answered in every case, and which block a replacement keeps; one returned done is registered at its address and its hash is that of the guest bytes now unless a store slipped by; a replacement's hash is right when the stores behind it change nothing in it, and wrong when they change one byte; no gone block is lost, unless a block that is released kept it |
| StoreWindows.StaleReplacement | src/dynarec/dynablock.c:273-284 | in any state with a changed block: if the stores behind the hash of its replacement are one store that is done and changes a byte of it, the block is returned done and its hash is wrong |
| Dynablocks.Dynarec.NoStaleCode | src/dynarec/dynablock.c:267-293 | in every reachable state, a block that is entered directly, and was not noted as slipped by, is not one to be tested always, has all its pages write-protected and its guest bytes hash to what was recorded; unless noted as misread, that is the hash of the bytes that its translation began with |
| Dynablocks.Dynarec.Run | src/dynarec/dynablock.c:44-300 | any sequence of guest stores, look-ups, releases and destructions keeps the invariant: every entry is the default or a registered, allocated block that is not gone and begins there, current if entered directly and not slipped by, with the hash of what its translation began with if not misread; no block is slipped by or misread unless a look-up has a store in one of four windows; and which steps lose a gone block |
| Dynablocks.Dynarec.RunKeeps | src/dynarec/dynablock.c:62-97 | over a run every gone block can be reached from one in use at every moment if and only if every look-up releases only blocks that keep none, and every destruction only blocks that keep none that keeps another |
| LostBlocks.LostForever | src/dynarec/dynablock.c:77-97 | a run: the code at an address changes twice, with a look-up after each change, and its memory is unmapped; the first block is gone, still allocated, and kept by none |
| Conditions.SplitJoin | rebuild_wrappers.py:484-496 | splitting undoes joining when no part holds or completes the separator |
| Conditions.ClauseRoundTrip | rebuild_wrappers.py:484-518 | parsing what a clause prints gives the clause back, for names without spaces |
| Conditions.ClausesRoundTrip | rebuild_wrappers.py:532-675 | the same for lists of clauses: none, one, several, empty clauses included |
| Conditions.DefineTexts | rebuild_wrappers.py:484-496 | what `defined(A)` and `!defined(A)` are read as |
| Conditions.UnknownName | rebuild_wrappers.py:484-496 | a clause with names that are not known raises the first of them |
| Conditions.ParsedNames | rebuild_wrappers.py:484-550 | of any text: what is read tests known names only, and a name that is raised is not known |
| ConditionText.TextMeans | rebuild_wrappers.py:473-477 | what is printed, evaluated as the preprocessor does, is true exactly when the clauses are; there is nothing to evaluate exactly when the list or a clause is empty |
| ConditionText.ReducedText | rebuild_wrappers.py:570-675 | the text of a reduced list evaluates to what the list meant before, unless that was always true: then a condition is missing |
| ConditionText.PrintsNothing | rebuild_wrappers.py:1294-1300 | an input: three clauses that are always true together are reduced to one that is printed as nothing, which is no condition for `#if` |
| Conditions.SpacesMatter | rebuild_wrappers.py:484-496 | a name that holds the separator is not read back |
| Implicants.MergeIsImplicant | rebuild_wrappers.py:628-637 | two implicants that differ in one bit combine to an implicant with one more free variable |
| Implicants.PartnerMerges | rebuild_wrappers.py:628-637 | an implicant that can be widened has a partner that it combines with |
| Implicants.PrimeIsMaximal | rebuild_wrappers.py:602-637 | a prime implicant is covered by no other implicant |
| PrimeSearch.CombineLevel | rebuild_wrappers.py:618-637 | one level: all combinations, each once, and what combines with nothing is put aside |
| PrimeSearch.NextLevel | rebuild_wrappers.py:617-638 | the combinations of level k are exactly the implicants with k + 1 free variables |
| PrimeSearch.AloneIsPrime | rebuild_wrappers.py:624-626 | what combines with nothing on level k is exactly the prime implicants with k free variables |
| PrimeSearch.FindPrimes | rebuild_wrappers.py:615-638 | the combining loop ends and collects exactly the prime implicants, and in which order |
| ClauseReducer.NeededIsLevel0 | rebuild_wrappers.py:605-613 | the assignments to be covered are exactly the implicants without free variables |
| ClauseReducer.Grow | rebuild_wrappers.py:639-641 | every assignment to be covered is covered by a prime implicant |
| ClauseReducer.FirstOfSize | rebuild_wrappers.py:648-652 | the error of the algorithm is never raised |
| ClauseReducer.Choose | rebuild_wrappers.py:642-668 | the choosing loops end; every chosen implicant is prime, together they cover every assignment, and each is the first of an assignment with the fewest to choose from |
| ClauseReducer.Minimise | rebuild_wrappers.py:602-669 | the clauses are prime, mean the same, and come sorted; there are none exactly when no assignment is to be covered |
| ClauseReducer.Dedupe | rebuild_wrappers.py:585-593 | a clause that stands alone keeps its tests, each once; one that contradicts itself raises exactly when the empty name cannot be tested, and otherwise comes to hold that test |
| ClauseReducer.ClauseList.Reduce | rebuild_wrappers.py:570-669 | means the same afterwards if and only if the list was empty or some clause could be true; then it does not raise and every clause is prime, its tests in the order of the names, each once; nothing is left when a clause is empty, of two opposite tests, and otherwise of several clauses exactly when none could be true; the result is sorted, and holds just the clauses of the chosen prime implicants |
| ClauseReducer.SortedInOrder | rebuild_wrappers.py:663-669 | sorting puts tests of different names strictly in the order of the names |
| ClauseReducer.InOrder | rebuild_wrappers.py:669-669 | clauses with fewer tests come first; of two with the same number, the one whose first different name comes earlier |
| ClauseReducer.SameByName | rebuild_wrappers.py:605-613 | the same meaning over bits is the same meaning over names |
| GreedyChoice.SpareCanGo | rebuild_wrappers.py:642-668 | one of several clauses of the outcome can be left out without a change of meaning if and only if the others cover all that it covers |
| GreedyChoice.LeastWhenForced | rebuild_wrappers.py:570-575 | when every assignment lies under a prime implicant that is the only one of some assignment, no list with the same meaning has fewer clauses than the outcome (but for the empty list) |
| GrownList.GrowsAList | rebuild_wrappers.py:570-575 | an input: three clauses over three names come out as five clauses of the same meaning, one of which could be left out |
| ClauseMeaning.MeansByName | rebuild_wrappers.py:606-612 | an assignment of bits stands for the set of defined names |
| Sorting.SortSorts | rebuild_wrappers.py:669-669 | the sort is a sorted permutation |
| Sorting.SortStable | rebuild_wrappers.py:669-669 | elements with the same key stay in their order |

## Left out

- X31Hash.X31NoticesOneByte: says nothing of changes of several bytes, which may leave the hash the same.
- Dynablocks.Dynarec.InternalDBGetBlock: for guest code below the last slot of the jump table (0xFFFF0000), where the sweeps end; what the source asks about alternates and the lock are parameters.
- Dynablocks.Dynarec.FillBlock: the passes and the emitted code are not modelled; what they find, where they stop and the stores made meanwhile are parameters.
- Dynablocks.Dynarec.CreateEmptyBlock: the layout of the code memory and its way out are not modelled.
- Dynablocks.Dynarec.Register: a look-up is not interleaved with another one, so that the entry is free.
- Dynablocks.Dynarec.FreeDynablock: releasing the code memory is part of removing the record; CodeMap models it by itself.
- Dynablocks.Dynarec.FreeInvalidDynablock: the same.
- Dynablocks.Dynarec.GuestWrite: hot pages, the way out of a block that changes itself, and the retries for faults that the kernel reports oddly.
- Dynablocks.Dynarec.DBGetBlock: hot pages, and look-ups of two threads at the same time.
- Dynablocks.Dynarec.CleanDBFromAddressRange: for ranges that end below the last slot of the jump table; in the last slot the sweep need not end.
- Dynablocks.Dynarec.SweepRange: the same.
- Dynablocks.Dynarec.UnprotectDB: the same.
- JumpTable.SweepEnds: on a table whose registrations stay, as they do when blocks are marked; a sweep that frees blocks takes some away as it goes.
- ConditionText.TextMeans: the evaluator knows what is printed: `defined(NAME)`, `!`, `&&`, `||`, parentheses and spaces; other preprocessor expressions are not modelled.
- ConditionText.ReducedText: the same.
- GreedyChoice.LeastWhenForced: the condition is sufficient; the outcome may be the shortest list without it. Which of two outcomes of the same length is chosen, and the number of tests over all clauses, are not compared.
- CustomHeap.Heap.Malloc: for requests above 0 and below 2 GB; a sub-block of size 0 would look like the end mark.
- CustomHeap.Heap.Realloc: the same.
- Protection.Tracker.ProtectDB: for ranges that end below the top of memory, where `ALIGN` would wrap to 0.
- Protection.Tracker.UnprotectDB: the same.
- Protection.Tracker.IsProtectedDB: the same.
- Protection.Tracker.ProtectUnprotect: the same.
- AddressSearch.FindBlockHinted: for masks that are a run of low bits; from a hint below the kernel's space nothing is said of that space when NULL is returned; the program-break check at its start only adds to the map.
- RangeTree.AtSet: the tree is seen as its list of runs in order; how red-black nodes balance and are searched is not modelled. rb_unset is not used by the modelled code.
- RangeTree.GetEnd: the same; the search goes over the list.
- RangeTree.SetFits: the same; the links of the tree are not modelled.
- Dynablocks are records in a map from their addresses and not objects: releasing one removes its record, so that use after release would be an error; its code memory goes with it (CodeMap models that by itself).
- The nodes of 64 code chunks are laid end to end in one sequence instead of being linked.
- The block list of the heap has no capacity that is raised by 4; mapping memory is a parameter, and running out of it is modelled for code chunks only.
- The growing half of `expandBlock`, which `customRealloc` never reaches, and `customCalloc`.
- Interleavings of two look-ups, and of a look-up with the steps of one write trap: a trap is one step, except for the jump table race.
- `DBAlternateBlock`, hot pages and guest calls to mprotect. No page is recorded with `PROT_NOPROT`, as those of the native bridges are, which count as protected although they stay writable; nothing records `PROT_NEVERCLEAN`.
- arm_pass0 to arm_pass3, the opcode translators, the emitter, the signal handler beyond the write trap.
- Memory mapping, /proc/self/maps, fork handlers, program-break tracking.
- File reading, symbol checks and text generation in rebuild_wrappers.py; its splitdef order.
