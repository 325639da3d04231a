# BenOS: a verified model of its kernel mechanisms

BenOS is a small RISC-V kernel and hypervisor. This project models its hardest parts in Dafny, in the
form the C code has (loops over memory, objects with fields, arrays changed in place), and proves what
they are for. `dafny verify dfyconfig.toml` checks everything.

**Page tables over a page allocator.** Physical memory is a map from 8-byte slots to 64-bit words. The
specification is the hardware walk of Sv39 (sections 4.3.2 and 4.4 of the RISC-V Privileged Architecture
20211203) and Sv39x4 (section 8.5), written as a function of memory and root (`Sv39.Walk`, `Translate`,
`TranslateGuest`, `TwoStage.GuestWalk`). `Mapping` holds the three nested loops of `mmu.c` with their
unsigned 64-bit boundary arithmetic, over the first-fit allocator of `PageAlloc`. `Translation` says
what a call does to every address, `MappingRuns` what any sequence of calls adds up to; `Boot`, `Stage2`,
`TwoStage` and `DumpPgtable` build on them. A mapping call needs what the code relies on
(`Machine.Ready`): a non-empty range below one root page, no leaf above level 0 on the way, and as many
free pages as tables are missing.

**The symbol compressor and its decoder.** `Tokens` is byte-pair replacement on values, `KallsymsTool`
the host tool in place on its buffers, `KallsymsImage` the emitted tables, `Kallsyms` the kernel's lookup.

**Scheduling and fork.** `List` and `Sched` are the intrusive rings, the run queue and `do_fork` as
objects. `SchedMachine` is the same scheduler as a machine on values, with what any run of forks, ticks,
schedules, sleeps and wake-ups conserves; `SchedLedger` shows that the objects follow it from boot on.
`SchedRuns` follows epochs of time slices on a fixed queue.

**Smaller mechanisms.** `LrSc` and `CasList` are state machines over all interleavings, `Pmp` the
protection-region encoder, `Strcmp` and `Memset` fast forms against their simple ones.

Where the code and what it is meant for disagree, the model follows the code, and the exact condition is
proved:

- The symbol markers are emitted 8 bytes apart (`kallsyms.c:390`) but read 4 bytes apart
  (`src/kallsyms.c:60`). The offset found is right exactly for the first 256 symbols
  (`Kallsyms.OffsetRightIff`, `OffsetWrongAt256`); `Kallsyms.SymbolRead` is the symbol really found.
- `pgd_index` keeps nine index bits where Sv39x4 has eleven, so a guest-page fault is resolved exactly
  when its address is below 2^39 (`Stage2.FaultResolved`). One from 2^39 on lands on a lower page instead:
  after any run a page goes to itself exactly when the last fault that landed on it was its own
  (`LastFaultDecides`), and it loses permissions exactly by such a foreign fault (`ShrinksIff`).
- `add_node` of the CAS list is safe under every schedule if and only if the list starts with a node
  behind its head or at most one thread runs (`CasList.SafeIff`).
- `read_symbol` accepts symbols of 129 bytes with their type character, which do not fit the 128-byte
  buffers of `write_src` and `print_symbol`. The emitter stays inside its buffer if and only if every code
  expands to fewer than 128 bytes (`KallsymsImage.WriteSrc`); symbols of fewer than 128 bytes are enough
  for that (`ShortFits`) and, when the codes did not run out, necessary (`FitsIff`). A single symbol of 128
  or 129 equal characters overruns it (`Kallsyms.LongSymbolOverruns`). The lookup stays inside its buffer
  if and only if the symbol found has at most 128 bytes (`Kallsyms.Lookup`).
- The repeat loop of `pick_next_task_simple` ends if and only if the largest counter in the queue is not 0
  or the largest slice is not 0 (`Sched.RepeatEndsIff`).
- `walk_pgd` follows every non-empty root entry as a table. Given the tables of a tree, its records tell the
  translation whatever the rest of memory holds if and only if no root entry of the range is a leaf
  (`DumpPgtable.FaithfulIff`, for leaves whose first frame is not itself a table page; `RootLeafMisread` is
  a concrete tree).
- `do_fork` keeps the page it took when no pid is free (`Sched.Kernel.DoFork`). `sbi_set_pmp` accepts index
  8 and negative ones without setting an entry, and index -16 overwrites all eight config bytes
  (`Pmp.Csrs.SetPmp`).

## Model

| member | source | states |
|---|---|---|
| PageAlloc.Allocator.MemInit | benos/src/page_alloc.c:11-27 | the managed range starts at the aligned-up start; the page count covers exactly the whole pages up to the aligned-down end, and is 0 for an empty range |
| PageAlloc.Allocator.GetFreePage | benos/src/page_alloc.c:29-40 | first fit: the lowest unmarked frame is marked and returned, or 0 with nothing changed when all are marked |
| PageAlloc.Allocator.FreePage | benos/src/page_alloc.c:42-45 | exactly the flag of the page's frame is cleared |
| PageAlloc.FirstFitBound | benos/src/page_alloc.c:29-40 | pigeonhole: first fit never goes past the number of frames in use |
| PageAlloc.RunKeepsSound | benos/src/page_alloc.c:29-45 | over any run of gets and frees of live pages, the marked frames are exactly the live pages |
| PageAlloc.GetAfterRun | benos/src/page_alloc.c:11-40 | after any run, a get fails exactly when all frames are live; otherwise it returns an aligned page that is not live, inside the managed range while fewer pages are live than the range holds |
| PageAlloc.Serve | benos/src/page_alloc.c:29-45 | a run of calls on the allocator object returns what the run on values returns |
| Mapping.PgdAddrEndMeaning | benos/include/asm/pgtable.h:47-50 | the root boundary macro gives the end of the current entry's range or of the whole range, whichever is first, also when the range ends at 2^64 |
| Mapping.PmdAddrEndMeaning | benos/include/asm/pgtable.h:52-55 | the same for the level-1 boundary macro |
| Mapping.Indices | benos/include/asm/pgtable.h:41-93 | the three index macros read the three fields of the page number, for any 64-bit address |
| Words.WrapIsModular | benos/include/asm/pgtable.h:47-55 | the 64-bit sums and differences of the boundary macros differ from the exact ones by a multiple of 2^64 |
| Sv39.WalkIsView | benos/include/asm/pgtable.h:61-108 | in a tree, the hardware walk from the root is decided by the three entries that the kernel's own pointer-following finds |
| Sv39.AttachKeepsTree | benos/src/mmu.c:33-45 | referring to a cleared new page from an empty entry keeps the tables a tree |
| Sv39.AttachMid | benos/src/mmu.c:77-86 | attaching a level-1 table changes no translation under any root and fills exactly one root entry |
| Sv39.AttachLow | benos/src/mmu.c:36-45 | attaching a level-0 table changes no translation under any root and fills exactly one 2 MB slot |
| Sv39.SetLow | benos/src/mmu.c:49-53 | storing a level-0 entry changes the translation of exactly one page under exactly one root |
| Sv39.SetSection | benos/src/boot.S:116-135 | storing a leaf in an empty level-1 entry changes the translation of exactly the 512 pages of one 2 MB slot |
| Mapping.Machine.EarlyPgtableAlloc | benos/src/mmu.c:103-111 | a page that was free and in no tree is now taken and all zero; every other slot of memory is unchanged |
| Mapping.Machine.AllocInitPte | benos/src/mmu.c:27-54 | maps the pages below one level-1 entry; takes a table page exactly when the entry was empty |
| Mapping.Machine.AllocInitPmd | benos/src/mmu.c:67-98 | maps the pages below one root entry, at the exact cost in table pages |
| Mapping.Machine.CreatePgdMapping | benos/src/mmu.c:124-146 | keeps the tree and the allocator valid; every page of the aligned range goes to consecutive frames with exactly prot, every other page and every other root is unchanged; the pages taken are exactly the empty root entries and 2 MB slots on the way |
| Mapping.BuiltThen | benos/src/mmu.c:138-145 | mapping two adjacent ranges one after the other is mapping the whole range, and the costs add up |
| Translation.MappedAddress | benos/src/mmu.c:124-146 | after a mapping call the Sv39 translation sends each canonical va of [down(virt), up(virt+size)) to down(phys)+(va-down(virt)) with exactly prot, or faults when prot is no leaf |
| Translation.OtherAddress | benos/src/mmu.c:124-146 | every other address translates as before, including those in 2 MB sections |
| Translation.CanonicalOutside | benos/include/asm/pgtable.h:41-93 | for canonical addresses, outside the range means a different page number |
| Sv39.CanonicalBits | benos/include/asm/pgtable.h:41-93 | the addresses meant are those whose bits 63 to 38 are all equal |
| Translation.OtherRoot | benos/src/mmu.c:124-146 | the walk from every other root is unchanged |
| Translation.OneParent | benos/src/mmu.c:33-45 | distinct slots refer to distinct tables, and no slot refers to a root |
| Translation.SomeParent | benos/src/mmu.c:73-86 | every table below a root is referred to by some slot |
| MappingRuns.MapAll | benos/src/mmu.c:124-146 | any sequence of mapping calls whose ranges meet no leaf keeps the tree and the allocator valid; every page translates as the last call covering it says, or as before; the pages taken are exactly the empty entries and slots on the way to any of the ranges |
| MappingRuns.LastCoverDecides | benos/src/mmu.c:124-146 | after such a run an address translates, with offset and flags, as the last call that covers its page asked |
| MappingRuns.OtherAddresses | benos/src/mmu.c:124-146 | an address that no call covers translates as before the run |
| MappingRuns.CostAdds | benos/src/mmu.c:33-86 | what a call costs after a run is what it adds to the cost of the run: overlapping ranges share their tables |
| Boot.CreatePageTable | benos/src/boot.S:44-82 | from two uncleared pages: a tree that maps the section range to itself and nothing else |
| Boot.CreateSectionMapping | benos/src/boot.S:91-140 | one root entry and one 2 MB leaf per section; all pages of the range go to consecutive frames, every other page faults |
| Boot.CreateMmioMapping | benos/src/mmu.c:174-203 | the three device ranges become identity mappings, every other page (boot's sections too) translates as before, and exactly 35 table pages are used |
| Boot.KernelAddressSpace | benos/src/mmu.c:205-212 | after boot and paging_init the hardware walk of every page: pages 0x80200 to 0x81000 and the three devices map to themselves with their flag bits, all else faults |
| Boot.KernelFlags | benos/include/asm/pgtable_hwdef.h:70-70 | those bits: RAM is readable, writable and executable, devices readable and writable, neither for user mode |
| Stage2.HandlePageFault | benos/src/stage2_mmu.c:36-60 | one fault builds exactly the faulting page's identity mapping with the cause's permissions, keeps the 16 KB root's tables a tree, and takes at most two pages |
| Stage2.FaultFlags | benos/src/stage2_mmu.c:53-58 | the entry lets the guest load and fetch, and store exactly when the cause was 23 |
| Stage2.Causes | benos/src/stage2_mmu.c:53-58 | fetch, load and store faults come with causes 20, 21 and 23 |
| Stage2.GuestAfterFault | benos/src/stage2_mmu.c:31-60 | the Sv39x4 translation of every guest-physical address after a fault |
| Stage2.FaultResolved | benos/src/stage2_mmu.c:49-58 | the fault is resolved if and only if the address is below 2^39; at and above it translates as before |
| Stage2.FaultsBound | benos/src/stage2_mmu.c:53-58 | over any run of faults on any guest-physical pages, each raised only when the permission is missing, a page below 2^39 faults at most twice, and twice more for each fault of another page that lands on it; without those it is mapped exactly when it has faulted |
| Stage2.FaultCounts | benos/src/stage2_mmu.c:36-60 | the two numbers in that bound count the page's own faults of the run and those of other pages that land on it |
| Stage2.ShrinksIff | benos/src/stage2_mmu.c:49-58 | a fault takes permissions from a page exactly when it is one of another page that lands on it and grants less |
| Stage2.PermissionsGrow | benos/src/stage2_mmu.c:57-58 | along any part of a run in which no other page lands on it, a page's permissions only grow |
| Stage2.LastFaultDecides | benos/src/stage2_mmu.c:49-58 | the last fault that lands on a page decides what it holds; the page goes to itself exactly when that fault was its own |
| Stage2.GuestAfterRun | benos/src/stage2_mmu.c:31-60 | the Sv39x4 translation of every 64-bit guest-physical address after a run |
| Stage2.ServeFaults | benos/src/stage2_mmu.c:36-60 | serving any run of faults on any guest-physical pages leaves the four roots showing exactly what the run left on each low page |
| TwoStage.LowRun | benos/src/stage2_mmu.c:36-60 | a run of faults below 2^39 leaves an identity mapping of the faulted pages |
| TwoStage.TwoStages | benos/virt/vs_mmu.c:110-132 | the two-stage walk faults on the first table page stage 2 does not map; when it maps them all it is the stage-1 walk followed by stage 2 |
| TwoStage.FinalShows | benos/src/stage2_mmu.c:53-58 | the access itself is refused by stage 1, by stage 2, or neither, as the flags for its kind (fetch, load, store) say |
| TwoStage.AccessOrFewer | benos/src/stage2_mmu.c:36-60 | a fetch, load or store completes exactly when stage 2 maps every table on its path and allows its kind on the page it ends at; otherwise it faults on a page that is insufficient; what lies at or above 2^39 stays so |
| TwoStage.FewerMissing | benos/src/stage2_mmu.c:53-58 | serving such a fault with the cause of the access leaves strictly fewer insufficient pages |
| TwoStage.Touch | benos/src/stage2_mmu.c:36-60 | a guest access of any kind, retried after each fault, completes after exactly one fault for each insufficient page, with its stage-1 path unchanged |
| TwoStage.SetVsMappingPage | benos/virt/vs_mmu.c:148-156 | the guest's page of gva maps to the guest page of gpa; the stage-2 tables are untouched |
| TwoStage.MapAndTouch | benos/virt/vs_mmu.c:148-156 | after it, loads and stores reach exactly the chosen page through both stages, after at most four faults; fetches are refused by stage 1 |
| DumpPgtable.WalkPte | benos/src/dump_pgtable.c:152-162 | on any memory: one record per page of the range, each with its page's interval, level 2 and the entry read |
| DumpPgtable.WalkPmd | benos/src/dump_pgtable.c:164-184 | on any memory: one record with interval, level 1 and entry for each empty or leaf entry, and the page records of each other entry |
| DumpPgtable.WalkPgd | benos/src/dump_pgtable.c:187-207 | on any memory: one record for each empty root entry, and the records of every other entry, followed as a table |
| DumpPgtable.PgdChain | benos/src/dump_pgtable.c:187-207 | whatever memory holds, the records are adjacent non-empty intervals from start to start+size |
| DumpPgtable.PgdFaithful | benos/src/dump_pgtable.c:152-207 | in a tree without leaves among the root entries of the range, every record tells the translation of all its addresses |
| DumpPgtable.FaithfulIff | benos/src/dump_pgtable.c:187-207 | for a tree and a range whose root leaves have a first frame outside the tables: all records are true for every content of the remaining memory if and only if no root entry of the range is a leaf |
| DumpPgtable.RootLeafMisread | benos/src/dump_pgtable.c:200-206 | a concrete tree with a 1 GB leaf, which the walk follows as a table and records as unmapped |
| DumpPgtable.RecordIsWalk | benos/src/dump_pgtable.c:152-207 | each address of a record translates, by the Sv39 walk, as the recorded entry says at its level; empty records fault |
| DumpPgtable.Covered | benos/src/dump_pgtable.c:187-207 | every address of the dumped range lies in a record |
| KallsymsTool.LearnSymbol | benos/scripts/kallsyms/kallsyms.c:415-421 | adds the true adjacent-pair counts of the symbol to token_profit |
| KallsymsTool.ForgetSymbol | benos/scripts/kallsyms/kallsyms.c:424-430 | subtracts them |
| Tokens.CountIsPlaces | benos/scripts/kallsyms/kallsyms.c:415-421 | those counts are the numbers of positions at which a pair stands, overlaps included |
| KallsymsTool.FindToken | benos/scripts/kallsyms/kallsyms.c:449-458 | the first occurrence of the pair in the window, or none when there is none |
| KallsymsTool.ReplaceAt | benos/scripts/kallsyms/kallsyms.c:482-494 | one turn of the in-place loop: the replaced prefix is final, the rest still to search, the overcounted tail is zero, all inside the buffer |
| KallsymsTool.CompressSymbol | benos/scripts/kallsyms/kallsyms.c:467-500 | the memmove loop refines left-to-right non-overlapping replacement; token_profit changes by the symbol's old and new pair counts |
| Tokens.ReplaceFromLeft | benos/scripts/kallsyms/kallsyms.c:482-494 | overlapping occurrences are taken from the left: n equal bytes become n / 2 codes with the odd byte last |
| Tokens.NoneLeft | benos/scripts/kallsyms/kallsyms.c:482-494 | replacement by a byte outside the pair leaves no occurrence of it |
| Tokens.Shrinks | benos/scripts/kallsyms/kallsyms.c:482-494 | a symbol gets shorter exactly when the pair occurs, and is unchanged otherwise |
| Tokens.TotalShrinks | benos/scripts/kallsyms/kallsyms.c:462-501 | the whole table strictly shrinks when the pair's profit is positive |
| KallsymsTool.Tool.CompressSymbols | benos/scripts/kallsyms/kallsyms.c:462-501 | every symbol becomes its replacement; token_profit equals the true pair counts before and after |
| KallsymsTool.FindBestToken | benos/scripts/kallsyms/kallsyms.c:504-518 | the first index of maximal profit (0 when none exceeds -10000) |
| KallsymsTool.Tool.InsertRealSymbols | benos/scripts/kallsyms/kallsyms.c:550-564 | exactly the bytes that occur in symbols stand for themselves |
| Tokens.StepKeepsLossless | benos/scripts/kallsyms/kallsyms.c:524-545 | a new entry keeps decoding lossless and the table acyclic, its code occurred nowhere before, each used code stands for a part of an original symbol, the pair is gone and the table is shorter |
| Tokens.ExtendsAcyclic | benos/scripts/kallsyms/kallsyms.c:536-541 | each pair entry refers only to literals and to pair entries of higher index |
| Tokens.ReplaceExpands | benos/scripts/kallsyms/kallsyms.c:290-313 | replacing a pair by its code does not change what a symbol expands to |
| KallsymsTool.Tool.PlacePair | benos/scripts/kallsyms/kallsyms.c:536-544 | the loop body on the buffers does that step |
| KallsymsTool.Tool.FillEntry | benos/scripts/kallsyms/kallsyms.c:524-545 | an empty entry gets the first pair of maximal count in the names as they are, which is replaced in all of them; the loop stops exactly when no pair is left |
| KallsymsTool.Tool.OptimizeResult | benos/scripts/kallsyms/kallsyms.c:521-547 | from slot 255 down every entry is a byte that occurs or the best pair of the names at its turn; decoding the compressed symbols gives the originals; it ends with no pair left, or with all codes taken, each by an occurring byte or by a pair that made the table shorter |
| KallsymsTool.GreedyUnique | benos/scripts/kallsyms/kallsyms.c:504-547 | the code table and the compressed symbols are determined by the original ones |
| KallsymsTool.Tool.OptimizeTokenTable | benos/scripts/kallsyms/kallsyms.c:566-579 | from any symbol list without zero bytes compression is lossless; fails exactly on the empty list |
| KallsymsTool.ExpandSymbol | benos/scripts/kallsyms/kallsyms.c:290-313 | the recursion ends; it stays inside the buffer exactly when expansion and zero fit, and then writes exactly those and nothing else |
| KallsymsImage.WriteNames | benos/scripts/kallsyms/kallsyms.c:373-386 | the name stream, with the stream offset of every 256th symbol as marker |
| KallsymsImage.WriteTokens | benos/scripts/kallsyms/kallsyms.c:395-407 | stays inside its buffer if and only if every code expands to fewer than 128 bytes; then it gives the token table and, for each code, the 16-bit offset of its expansion |
| KallsymsImage.WriteSrc | benos/scripts/kallsyms/kallsyms.c:373-408 | the same exact condition; all four tables, markers as 8-byte words |
| KallsymsImage.CompressedIsEmittable | benos/scripts/kallsyms/kallsyms.c:113-129 | what the compressor produces from any symbols that read_symbol accepts fits the length bytes and the stream offsets, and no expansion holds a zero |
| KallsymsImage.ShortFits | benos/scripts/kallsyms/kallsyms.c:395-402 | when every symbol has fewer than 128 bytes, so has every code's expansion |
| KallsymsImage.FitsIff | benos/scripts/kallsyms/kallsyms.c:521-547 | when no pair is left, every code fits if and only if every symbol has fewer than 128 bytes |
| KallsymsImage.SymbolAt | benos/src/kallsyms.c:73-84 | length byte and bytes of symbol k stand at its stream offset |
| KallsymsImage.TokenAt | benos/src/kallsyms.c:97-109 | the expansion of code c stands, with its closing zero, at its indexed offset |
| Kallsyms.MarkerWord | benos/src/kallsyms.c:78-78 | the 4-byte word w of the marker table is marker w/2 for even w and 0 for odd w |
| Kallsyms.BlockRead | benos/src/kallsyms.c:78-78 | for every position, SymbolRead's block is the one whose offset the kernel reads |
| Kallsyms.GetSymbolOffset | benos/src/kallsyms.c:73-84 | the offset of symbol SymbolRead(pos), for every position |
| Kallsyms.OffsetRightIff | benos/src/kallsyms.c:73-84 | the offset is that of the symbol asked for if and only if it is one of the first 256 |
| Kallsyms.OffsetWrongAt256 | benos/scripts/kallsyms/kallsyms.c:389-390 | a concrete table of 257 symbols whose last symbol is looked up as the first |
| Kallsyms.ExpandSymbol | benos/src/kallsyms.c:86-115 | stays inside the buffer exactly when the name without its type character and a closing zero fit, and then writes exactly those |
| Kallsyms.Search | benos/src/kallsyms.c:128-138 | the last symbol at or below the address; all later ones are above it |
| Kallsyms.Lookup | benos/src/kallsyms.c:117-157 | answers exactly kernel addresses, with the name, offset and size (to the next larger address, or to 0) of the symbol found; runs over namebuf exactly when that symbol has more than 128 bytes |
| Kallsyms.OffsetWithinSize | benos/src/kallsyms.c:143-153 | the offset is below the size when a larger address follows, which is when the symbol is not the last |
| Kallsyms.NextAboveMeaning | benos/src/kallsyms.c:143-148 | the end of the symbol is the least address above it, or 0 when there is none |
| Kallsyms.Build | benos/scripts/kallsyms/kallsyms.c:566-579 | compress and emit any accepted symbol list: inside the buffer if and only if every code of the tool's final table fits, for which short symbols are enough, and necessary when the codes cannot run out; the image is that of the tool's final table and symbols |
| Kallsyms.LongSymbolOverruns | benos/scripts/kallsyms/kallsyms.c:124-129 | a single symbol of 128 or 129 equal characters passes the length check and makes the emitter write behind its buffer |
| Kallsyms.BuildAndLookup | benos/src/kallsyms.c:117-157 | end to end: compress, emit, look up; emission succeeds exactly when the tool's final codes fit; then offset and size are those of the last symbol at or below the address, with the offset inside the size when another follows, and the name read is the original name of SymbolRead(low), so of the right symbol when it is one of the first 256 |
| List.NextPrevInverse | benos/include/list.h:22-53 | on a ring, next and prev are inverse and stay inside it |
| List.AddBetween | benos/include/list.h:22-29 | the ring with the node inserted between its neighbours |
| List.ListAdd | benos/include/list.h:31-34 | the node follows the head |
| List.ListAddTail | benos/include/list.h:36-39 | the node precedes the head |
| List.ListDel | benos/include/list.h:48-53 | the ring without the node, whose links are poisoned |
| List.ListEmpty | benos/include/list.h:55-58 | true exactly for a ring of the head alone |
| Sched.Kernel.EnqueueTask | benos/src/sched_simple.c:12-17 | the task is first in the queue; both rings, pids and nr_running stay right |
| Sched.Kernel.DequeueTask | benos/src/sched_simple.c:5-10 | exactly that task leaves the queue |
| Sched.RepeatEndsIff | benos/src/sched_simple.c:46-64 | the repeat loop ends within two scans or never; it ends if and only if the largest counter is not 0 or the largest slice is not 0 |
| Sched.Kernel.BestTask | benos/src/sched_simple.c:49-57 | the first queued task of maximal counter, or none above -1000 |
| Sched.Kernel.ResetScore | benos/src/sched_simple.c:28-36 | every task but init_task has 10 + priority ticks; init_task keeps its counter |
| Sched.Kernel.PickNextTask | benos/src/sched_simple.c:39-67 | the repeat loop runs at most twice; one reset exactly when the maximum was 0; the result is the first maximal counter, not 0 |
| Sched.Kernel.TaskTick | benos/src/sched_simple.c:69-76 | one tick less, never below 0, and need_resched at 0 |
| Sched.Kernel.SetLinks | benos/include/sched.h:107-112 | the task joins the PCB ring right before init_task |
| Sched.Kernel.FindEmptyTask | benos/src/fork.c:22-32 | the first free pid, or -1 when all are taken |
| Sched.Kernel.DoFork | benos/src/fork.c:98-134 | -1 exactly without a page or a pid (the page stays taken); else a new task with the first free pid, last in the PCB ring, first in the queue; the sum of all counters is unchanged |
| Sched.Kernel.ForkSplits | benos/src/fork.c:118-119 | the two halves add up to the parent's counter |
| Sched.Kernel.WakeUpProcess | benos/src/sched.c:162-169 | the task is running and first in the queue |
| Sched.Kernel.Schedule | benos/src/sched.c:80-133 | a blocked current task leaves the queue, the best one becomes current, need_resched of the old one is cleared, switches are counted |
| Sched.Kernel.TickHandlePeriodic | benos/src/sched.c:60-65 | charges the current task; the sum of the counters drops by the tick charged |
| Sched.Kernel.constructor | benos/src/sched.c:171-179 | the state at boot: an empty queue, a PCB ring and a g_task with init_task alone, which runs with its initial counter and priority |
| SchedRuns.StepKeepsRunning | benos/src/sched_simple.c:39-76 | counter plus ticks charged is each task's slice at all times; a reset comes only when every task has had exactly its slice |
| SchedRuns.RunCounts | benos/src/sched_simple.c:28-76 | in any run, the resets are the ticks divided by the sum of the slices, the ticks since are the remainder |
| SchedRuns.BoundedWait | benos/src/sched_simple.c:28-76 | within the sum of the slices a task is charged all it had left; within twice that, at least its slice |
| SchedRuns.Serve | benos/src/sched.c:60-133 | the kernel's objects follow that run, tick by tick |
| SchedMachine.ApplySane | benos/src/sched.c:60-169 | every operation keeps: counters not negative, only ring tasks other than init_task queued, each once, and the current task queued or init_task |
| SchedMachine.ResetEntry | benos/src/sched_simple.c:60-61 | an operation resets exactly when it schedules and all tasks it chooses from have spent their time |
| SchedMachine.StepBooked | benos/src/sched.c:60-169 | fork and wake-up keep the sum of all counters, a tick takes what it charges, after a reset the sum is a slice for each task plus init_task's counter |
| SchedMachine.NoReset | benos/src/sched_simple.c:69-76 | over any stretch of a run without a reset, exactly the charged ticks are gone from the sum of the counters |
| SchedMachine.SinceReset | benos/src/sched_simple.c:28-76 | over any run of forks, ticks, schedules, sleeps and wake-ups, counters left plus ticks charged since the last reset equal what that reset handed out |
| SchedMachine.EpochBound | benos/src/sched_simple.c:28-76 | no more ticks are charged after a reset than it handed out, until the next one |
| SchedMachine.SharesKept | benos/src/sched_simple.c:28-36 | what a reset gives a task never changes along a run |
| SchedMachine.ForkedGetsTwelve | benos/src/fork.c:98-134 | every reset after a fork gives the forked task 12 ticks |
| SchedLedger.Boot | benos/src/sched.c:171-179 | the kernel object at boot satisfies what the operations keep, at the machine's first state |
| SchedLedger.SettledIsSane | benos/src/sched.c:60-169 | a kernel object between operations is a sane state of the machine |
| SchedLedger.Do | benos/src/sched.c:60-169 | each operation on the kernel's objects does to the whole state (g_task, page flags, ring, queue, current task, counters, slices) exactly what the machine does |
| SchedLedger.Operate | benos/src/sched.c:60-169 | so does any run of operations: the end state is the machine's |
| SchedLedger.OperateSince | benos/src/sched_simple.c:28-76 | on the objects: when operation j was the last to reset, the sum of all counters plus the ticks charged since equals what it handed out |
| SchedLedger.FromBoot | benos/src/sched.c:60-179 | from boot with any allocator, any run is the machine's run from the boot state |
| SchedLedger.StartEpoch | benos/src/sched.c:80-133 | a schedule that finds all queued tasks out of time starts an epoch of SchedRuns |
| SchedLedger.ServeEpochs | benos/src/sched.c:60-133 | from there the objects follow the epoch machine, tick by tick |
| LrSc.AddStepAccounted | others/atomic/example_14_2_atomic_add.c:8-15 | every instruction of every hart keeps: the word is all that was added so far, and a standing reservation means an unchanged word |
| LrSc.AddsAreAtomic | others/atomic/example_14_2_atomic_add.c:3-16 | any interleaving on any number of harts, with spurious sc failures, ends with the initial value plus all (signed) addends modulo 2^64 |
| LrSc.AddAlone | others/atomic/example_14_2_atomic_add.c:8-12 | left alone with its sc let through, a hart finishes an atomic_add in four instructions with the addend added modulo 2^64 |
| LrSc.AddRetries | others/atomic/example_14_2_atomic_add.c:8-12 | when the sc is not let through it is back at the start, with nothing added |
| LrSc.CasStepRefines | others/atomic/example_14_7_cmpxchg.c:8-18 | every instruction is either nothing or the whole atomic compare-and-swap of its hart |
| LrSc.CasRunRefines | others/atomic/example_14_7_cmpxchg.c:3-19 | over any interleaving with foreign stores, each call takes effect once and returns the value it then saw |
| LrSc.CasAlone | others/atomic/example_14_7_cmpxchg.c:8-18 | left alone, a cmpxchg returns the word it found: after two instructions without a store when it is not the expected one, after four with the desired word stored when it is |
| LrSc.CasRetries | others/atomic/example_14_7_cmpxchg.c:8-18 | when the sc is not let through it is back at the start, with the word as it was |
| CasList.StepKeepsInv | others/atomic/example_14_10_free_lock_list.c:48-72 | any step of any add_node keeps an acyclic, null-terminated chain that only grows at its end, and no cursor null |
| CasList.CallEndsWithItsNode | others/atomic/example_14_10_free_lock_list.c:48-72 | a call returns exactly at the step that links its node; no other step links anything |
| CasList.NoAddLost | others/atomic/example_14_10_free_lock_list.c:48-72 | after any run from a non-empty list, every node allocated on the way is on the chain exactly once or held by a call that is not over; when none is pending, the added nodes are exactly the allocated ones |
| CasList.AloneReturns | others/atomic/example_14_10_free_lock_list.c:61-69 | a thread left alone in the search loop, at any node, reaches the end in two steps a node and returns with its node linked last |
| CasList.AddAlone | others/atomic/example_14_10_free_lock_list.c:48-72 | a whole add_node left alone on a non-empty list links one new node behind the last and changes nothing else |
| CasList.AddAloneFirst | others/atomic/example_14_10_free_lock_list.c:55-58 | on the empty list it makes the new node the first |
| CasList.NonEmptyIsSafe | others/atomic/example_14_10_free_lock_list.c:48-72 | from any non-empty list, any interleaving leaves the old list followed by each added node exactly once, in the order the calls took effect |
| CasList.FailedCasMeansProgress | others/atomic/example_14_10_free_lock_list.c:62-68 | a failed tail compare-and-swap means another add took effect meanwhile |
| CasList.OneThreadIsSafe | others/atomic/example_14_10_free_lock_list.c:48-72 | a single thread is safe from the empty list too, and builds the list of its nodes in order |
| CasList.EmptyIsUnsafe | others/atomic/example_14_10_free_lock_list.c:51-68 | from an empty list in any memory, a concrete schedule of two of the threads dereferences a null cursor |
| CasList.SafeIff | others/atomic/example_14_10_free_lock_list.c:48-72 | no schedule makes any thread dereference a null cursor if and only if the list starts non-empty or at most one thread runs |
| Pmp.Log2Roundup | benos/sbi/sbi_lib.c:80-91 | computes the rounded order |
| Pmp.OrderIsLeast | benos/sbi/sbi_lib.c:80-91 | the order is the least whose power of two covers the size; below 2 exactly for sizes up to 2 |
| Pmp.NapotDecodes | benos/sbi/sbi_main.c:70-83 | decoding the address by section 3.7.1 gives the aligned region of 2^order bytes around start |
| Pmp.OneByteSet | benos/sbi/sbi_main.c:51-62 | masking in the config byte of entry i sets digit i of the register in base 256 and no other digit |
| Pmp.Csrs.SetPmp | benos/sbi/sbi_main.c:29-91 | the error cases; otherwise digit reg_idx of pmpcfg0 in base 256 becomes prot with the address-matching field 2 (size up to 4) or 3, the other digits stay, and that one entry decodes to the region asked for; index 8 and negative ones change nothing, but index -16 puts the address word into the config register |
| Pmp.OpenMemory | benos/sbi/sbi_main.c:116-116 | the firmware's own call: digit 1 of pmpcfg0 becomes 0x1f and entry 1 the whole address space; every other digit, so entry 0, is as before |
| Pmp.RegionAround | benos/sbi/sbi_main.c:37-83 | for every start, aligned or not, the region is naturally aligned and holds start |
| Pmp.Configure | benos/sbi/sbi_main.c:29-91 | a run of calls with any indices but -16 on the registers does to the decoded entries what the run on values does |
| Pmp.LastCallDecides | benos/sbi/sbi_main.c:29-91 | after any run, an entry holds what its last accepted call asked for |
| Pmp.AlignedRegion | benos/sbi/sbi_main.c:37-83 | for an aligned start the region begins there and has the least power of two covering the size |
| Strcmp.Scalar | others/rvv/case_analysis_1_strcmp/strcmp_test.c:7-15 | the difference of the bytes at the first position where the strings differ or end |
| Strcmp.Vector | others/rvv/case_analysis_1_strcmp/strcmp_asm.S:6-32 | the same result for any vector length and any trimming of the loads to at least one byte, reading no unreadable byte |
| Strcmp.Meaning | others/rvv/case_analysis_1_strcmp/strcmp_test.c:7-15 | the result is zero exactly for equal strings, and otherwise has the sign of their unsigned byte order |
| Strcmp.StopExists | others/rvv/case_analysis_1_strcmp/strcmp_test.c:9-12 | strings that differ or end somewhere have a first such position |
| Memset.Memset1Bytes | benos/src/memset.c:22-29 | fills exactly the bytes asked for, each with the byte that differs from c by a multiple of 256, so with c itself when it is a byte |
| Memset.Memset16Bytes | benos/src/memset.c:5-20 | the block loop does the same for multiples of 16 |
| Memset.Memset | benos/src/memset.c:31-78 | the same bytes for any alignment and any count below 2^31, writing nothing else, with every eight-byte store naturally aligned |
| Memset.ClearPage | benos/src/mmu.c:103-111 | memset with 0 and 4096 leaves exactly that page zero |

## Left out

- TLB fences, accessed and dirty bit updates, caches and weak memory: memory is sequentially consistent.
- Device I/O, traps, SBI calls, printing, linker scripts; addresses they fix are parameters or constants.
- The last argument flags of the builder, which the code never reads; the function pointer for allocation is always early_pgtable_alloc.
- Mapping.Machine.CreatePgdMapping: assumes enough free pages, because early_pgtable_alloc does not check for 0 and would then clear page 0.
- Boot.CreatePageTable: takes one root entry's worth of sections, because the assembly writes a single root entry.
- TwoStage.AccessOrFewer: the guest's privilege mode, which decides what the U flag of its own leaf means; MXR is clear.
- KallsymsTool.Tool.OptimizeTokenTable: filtering, sorting and reading of symbols happened before; token_profit is not limited to 32 bits.
- KallsymsImage.WriteSrc: assembler escaping of quotes and backslashes in .asciz, the address table, which the lookup takes as given, and what follows a write behind a buffer, where the model stops.
- Kallsyms.Lookup: at least one symbol; the size reported for the last symbol counts to address 0, as in the code.
- Sched.Kernel.Schedule: the interrupt flag and the preemption counter are not modelled; switching stacks is the change of the current task.
- Sched.Kernel.PickNextTask: asks that the repeat loop ends with a task (Pickable); otherwise it never ends, or goes on with an unset pointer when no counter is above -1000.
- Sched.Kernel.DoFork: register contexts of the child, and the address of its page inside the task object.
- SchedRuns.BoundedWait: a fixed run queue; sleeping and forking are covered by SchedMachine.
- SchedMachine.SinceReset: a sleep that would empty the run queue and a schedule of an empty one, where the code goes on with an unset pointer, are skipped.
- LrSc.AddsAreAtomic: no claim that every loop ends, which the architecture leaves to the hart.
- CasList.StepKeepsInv: del_node, which can detach a node being extended, and a failing malloc.
- Pmp.Csrs.SetPmp: the lock bit and read-only address bits of the registers; clearing and setting low address bits are written as arithmetic.
- Strcmp.Scalar: char is unsigned, as in the RISC-V ABI.
- The RGB and memcpy vector examples, the early log buffer and formatted printing: no property beyond what their bodies say.
