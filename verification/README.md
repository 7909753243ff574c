# A verified model of the ucore kernels' hard core

This Dafny 4.11 project models the stateful parts of a teaching operating system on RISC-V and
proves what they keep over whole runs. `dafny verify dfyconfig.toml` checks all of it. Nothing
here executes the C code; every statement is about the model.

| Files | What they model |
|---|---|
| `CowState`, `Cow` | copy-on-write memory: reference counts, sharing by fork, fault handling |
| `CowEager`, `CowRun`, `CowIsolation`, `CowHoles` | runs of any interleaving against a machine with private copies, what processes can learn of each other, and where fork does not end, from `load_icode` on |
| `PageTable`, `Sv39`, `CowTables` | the three-level trees of all processes, the processor's translation (section 4.4 of the RISC-V Privileged Architecture) over their words, the flat view, and all of this side by side with the kernel |
| `Vma` | the sorted list of memory areas with its one-entry cache, and `user_mem_check` |
| `Loader` | `load_icode`: placing ELF segments page by page in 64-bit arithmetic |
| `Pids`, `Family`, `Lifecycle`, `Procs` | process ids, relation links, the states of processes, and the process table with its scheduler |
| `ProcMachine`, `ProcRun` | the processes as values, step by step, and the table's runs, which are runs of that machine |
| `Ring` | the circular doubly linked list of `list.h` |
| `SkewTree`, `SkewHeap` | the skew heap as trees with an amortised cost bound, and as nodes with parent pointers |
| `Rand` | the 48-bit linear congruential generator |
| `Powers` | powers of two, which `Rand` and `SkewTree` share |
| `Numerals`, `Printf`, `Formats` | `printnum` and `strtol` as inverses, the formatter and `vsnprintf`, and what every escape of a format means |

## How the pieces fit

*Copy-on-write.* `Cow.Kernel` is the kernel's memory as fields that its methods reassign: pages
with counts and contents, free pages, pages in use as tables, address spaces, and one flat map
from (process, virtual page) to leaf entries. `CowState.Inv` says that a page's count is the
number of leaves naming it, that a page named by a writable leaf has count 1, and that leaves lie
in areas and existing tables; every method keeps it. `CowEager` is a machine on which fork copies
every page at once; it is a map of independent processes, each changed only by `Next` on its own
acts, and every answer but two is determined: whether memory is lacking, and what a page that
appears holds. `CowRun.Run` shows that any run of the kernel is one of that machine, answer by
answer and state by state, until an event at which the code really departs from it, and names
that event's reason. `CowEager.Purge` and `CowIsolation.Isolation` then say what a process can
learn of the others. `PageTable` shows that the trees that `get_pte` builds for all processes in
one memory are exactly the flat map, and `Sv39` that the processor, walking their words by plain
arithmetic, finds exactly its entries; `CowTables.Paging` keeps a kernel and its trees joined, with
the pages of the trees being the kernel's tables and one page directory a process.

*Processes.* `Procs.ProcTable` holds the process list, the hash index, the count, `current` and
the pid allocator; `Family.Proc` holds the fields of one process. `Valid` is what every atomic
step between two calls of `schedule` keeps: list, count, pids and hash agree (`Catalogued`); child
lists are exactly the processes whose parent field points there, and parents are older than their
children (`Related`); everybody's state fits what it waits for (`Lifecycle.AllSound`).
`ProcRun.Run` drives it with any sequence of system calls, logs, for each turn, who took it, what
it did and what came of it, and returns the table at every moment as a value (`ProcMachine.Snap`).
Each entry ties two neighbouring values together (`ProcMachine.Follows`): the turn is that of
whoever was current, the outcome is what the call demands of the table at that moment, lives,
lists, zombies, marks and pids change exactly by that outcome, and the next process is the one
that the round robin of `schedule` elects. What runs keep is then proved of the values: nobody is
reaped or exits twice, codes arrive, there is no deadlock, because initproc is always there and
everybody who sleeps waits for somebody younger (`ProcMachine.SomebodyCanRun`), and nobody who can
run starves (`ProcMachine.NoStarvation`).

*Text.* `Printf.Render` is a plain recursion over a format; `Vprintfmt` is the loop with its jumps
and its rewinding, shown to emit what `Render` says. `Formats` cuts the escapes of any format into
pieces and says, without the formatter's own functions, which flags they give and which characters
appear for each conversion.

## Where the code departs from its intent

Each of these is kept as the code has it, with the exact condition under which the intent holds.

- `copy_range` moves its cursor only past an absent table or a valid entry. Given memory for all
  it allocates, it ends if and only if no table that exists in the range has an invalid entry;
  without, it may also end for lack of memory, or panic, at a mapped page below the first such
  hole (`Cow.Kernel.CopyRange`, `CowHoles.CopyRangeEndsIff`); at the hole, turns change nothing
  (`Cow.Kernel.TurnsAtHole`). The user stack that `load_icode` sets up starts with a hole, so a
  freshly loaded process can never be forked (`CowHoles.StackStopsFork`, from `load_icode` to the
  fork in `CowHoles.LoadThenFork`, and for a concrete process in `CowHoles.ExampleSpins`).
- A page that appears by demand paging is not cleared: `do_pgfault` hands out what the last user
  of the page left there. `CowIsolation.Leak` is a concrete run in which a process reads a byte
  that another one stored before it exited. `CowIsolation.Isolation` is the exact condition: what
  a process sees and is answered depends on its own acts and forks, and its ancestors' up to the
  forks, alone, if and only if the pages that appeared for it have the same contents, memory is
  lacking at the same times, and the pids its children are to have are taken at the same times.
- A write fault on a shared page in an area without VM_WRITE leaves an entry that is writable but
  not readable, which Sv39 reserves. The first such fault is exactly where a run stops answering
  every load as the machine with private copies does: up to it all loads are answered the same,
  and right after it some load is not (`CowRun.Run` with `Diverges`,
  `CowRun.DivergesInReadOnlyArea`).
- A write fault on a shared page drops the permission to execute it, because the copy gets the
  area's permission to write and nothing else (`Cow.Kernel.BreakSharing`). It never adds one:
  executable pages come from the program alone (`CowRun.CodeIsInstalled`).
- The entries of the two upper page-table levels carry PTE_U, which the architecture reserves there
  (`PageTable.DirectoryWord`).
- `load_icode` accepts a segment whose `p_va + p_memsz` wraps around 2^64 within one page. A
  loaded program is right, for all segments at once, if and only if no segment wraps
  (`Loader.Image.LoadIcode`; `Loader.WrapIsLoaded` is the concrete input: it is loaded, and its
  bytes are not there).
- `mm_map` refuses overlap politely only if an area contains the first page; any other overlap
  runs into the asserts of `insert_vma_struct` (`Vma.Mm.MmMap` says exactly when).
- `"%d"` with blank padding puts the blanks between sign and digits; what is printed reads back if
  and only if that does not happen (`Numerals.SignedRoundTrip`).
- `strtol` does not detect overflow. Its value is taken modulo 2^64, as the machine's arithmetic
  gives it, although C leaves signed overflow undefined. What is printed unsigned reads back
  modulo 2^64 always, and as the same number if and only if a `long` can hold it; so every kernel
  pointer printed by `"%p"` reads back negative (`Numerals.RoundTrip`,
  `Numerals.PointerRoundTrip`).
- The comment of `strtol` promises a prefix "0X"; only "0x" is read (`Numerals.CapitalPrefix`).
- With '-' a number is padded with that character on the left, not with blanks on the right
  (`Formats.NumberField`); and an escape without a conversion is printed as it stands, but the
  arguments of its stars are gone (`Formats.UnknownField`).
- `rand` never returns 0, although its comment says it may: `do_div` does not parenthesise its
  base (`Rand.Generator.Rand`).
- `do_kill` marks a zombie, too; its state and exit code stay (`Procs.ProcTable.Kill`).
- `do_fork` allocates its process structure twice and uses the second; the model allocates once.

## Model

| member | source | states |
|---|---|---|
| CowState.InsertKeepsInv | lab5/cow/pmm.c:436-453 | Inserting a page, also over another page or over itself, keeps the whole counting invariant: every count is the number of leaves, writable pages have count 1, no leaf names a free page. |
| CowState.RemoveKeepsInv | lab5/cow/pmm.c:256-268 | Clearing an entry keeps the whole counting invariant; in particular no leaf names the page if it became free. |
| CowState.SoleMapping | lab5/cow/vmm.c:437-442 | Count 1 means that one leaf only names the page, so giving it write permission is private. |
| Cow.Kernel.GetPte | lab5/cow/pmm.c:214-239 | On the flat view, get_pte with create adds at most the one missing third-level table and the second-level table above it, each only if it is missing and each on a page that was free, and adds no entry; without create it changes nothing; it fails only when no page is free. |
| Cow.Kernel.PageRemovePte | lab5/cow/pmm.c:256-268 | The new state is the old one with the entry cleared, the count lowered, and the page freed at 0. |
| Cow.Kernel.PageInsert | lab5/cow/pmm.c:436-453 | The new state is the old one with the entry written and both counts adjusted, after tables were built; otherwise no memory and only tables have grown. |
| Cow.Kernel.PgdirAllocPage | lab5/cow/pmm.c:464-491 | A page that was free is inserted, or the page is given back; with the table there it fails only if no page was free. |
| Cow.Kernel.UnmapRange | lab5/cow/pmm.c:270-285 | Ends; unmaps exactly the pages of the range, leaves every other entry alone, and releases exactly the pages whose count reached 0. |
| Cow.SkipIsSound | lab5/cow/pmm.c:275-279 | The block skipped for an absent table holds no entry. |
| Cow.Kernel.CopyRange | lab5/cow/pmm.c:347-417 | On any range: it ends with all mapped pages shared read-only on both sides exactly if there is no hole; otherwise exactly the mapped pages before the stopping point are shared, which is the first hole, where it spins, or a mapped page before it, where no page is free; contents do not change. |
| Cow.Kernel.CopyTurn | lab5/cow/pmm.c:352-413 | One turn: past the block of an absent table, past a page that was shared, or, at an invalid entry, nowhere with nothing changed; it fails only at a mapped page with no free page left. |
| Cow.Kernel.TurnsAtHole | lab5/cow/pmm.c:360-415 | Any number of turns at an invalid entry changes nothing. |
| Cow.Kernel.SharePage | lab5/cow/pmm.c:361-413 | One turn of the loop: the page is mapped read-only at both places, and the spare page that was allocated is not used. |
| Cow.Kernel.DupMmap | lab5/cow/vmm.c:190-210 | For every address space, the backward walk rebuilds the same area list and shares all mapped pages, or spins because of a hole, or fails because no page or no structure was to be had. |
| Cow.Kernel.ExitMmap | lab5/cow/vmm.c:212-221 | Unmapping area after area unmaps everything of the process and nothing else, releasing exactly the pages whose count reached 0. |
| Cow.Kernel.Fork | lab5/cow/proc.c:334-375 | After a successful fork, which happens only without holes, the child reads what the parent reads and everybody else what they read before; a fork that fails midway does so for lack of memory and its unwinding restores all data, areas, names and counts; it spins only at a hole. |
| Cow.Kernel.Exit | lab5/cow/proc.c:491-500 | The address space is gone, others keep every entry and every byte, and exactly the pages whose last name went are free. |
| Cow.Kernel.ForkThenExit | lab5/cow/proc.c:353-375 | Fork and then the child's exit leave every data page's count and everybody's data as they were, whether the fork succeeded or not. |
| Cow.CountsRestored | lab5/cow/proc.c:353-375 | Whatever happened in between, equal names mean equal counts. |
| Cow.Kernel.PgFault | lab5/cow/vmm.c:396-525 | Bad address exactly outside all areas; an existing page keeps its data and its entry becomes exactly what the count, the old entry and the area's permission demand; a missing page appears with what a page of the free set held, to be read and written exactly if the area may be written, and not executable; memory is lacking only when no page is free, and then no entry changes. |
| Cow.Kernel.FaultPresent | lab5/cow/vmm.c:432-469 | Nothing for a read or an entry that is writable; the only name of a page becomes writable in place; any other name gets its own page. |
| Cow.Kernel.BreakSharing | lab5/cow/vmm.c:444-468 | The copying branch: the process's data stay, its entry names a page that was free, writable. |
| Cow.WriteIsPrivate | lab5/cow/vmm.c:458-461 | Changing a page with count 1 changes the data at one place only. |
| CowRun.Run | lab5/lab5.md:455 | Every run of spawns, forks, installs, loads, stores, faults and exits is, answer by answer and state by state, one of the machine with private copies, with memory lacking only when it is; it ends before the last event only with a fork at a hole, a panic without a free page, or the first write fault after which some load is answered differently. |
| CowRun.StepAny | lab5/cow/vmm.c:396-525 | One event of any kind is a step of the reference machine with an answer that machine allows, or ends the run for its exact reason. |
| CowRun.TracedIsExecuted | lab5/lab5.md:455 | A traced run of kernel states is an allowed run of the reference machine that ends in the same view. |
| CowRun.DivergesInReadOnlyArea | lab5/cow/vmm.c:437-468 | If every page of a writable area could be read at the start, a run diverges only where a readable shared page of an area without VM_WRITE is written. |
| CowRun.CodeIsInstalled | lab5/cow/vmm.c:415-418 | Over any run, a page can be executed only if a page was installed at its address in an executable area, or if the process or the ancestor it was forked from could execute it at the start: no fault, fork or store makes code. |
| CowRun.StepStore | lab5/cow/vmm.c:432-469 | A store with its write fault does what it does with private copies, or lacks memory, or spoils the page's read permission, after which some load is answered differently. |
| CowEager.LoadsAfter | lab5/lab5.md:455 | What private copies mean, load by load: a forked child reads what its parent reads, a store changes one byte of its own process, a page installed or appeared shows its contents if its area allows it, an exit ends all answers, and everything else leaves every answer as it was. |
| CowEager.Purge | lab5/lab5.md:455 | Over any run of the reference machine, what becomes of a process and what it is answered is decided by its own acts and forks, and before the fork that made it its parent's; all other events can be left out. |
| CowEager.SameLifeIffSameChances | lab5/cow/vmm.c:470-477 | Two lives with the same acts and forks are answered the same and see the same pages all along if and only if the contents of appearing pages, the times without memory and the times when a child's pid is taken agree. |
| CowEager.RunKeepsReadable | lab5/cow/vmm.c:415-418 | Over any allowed run, every page of a writable area stays readable. |
| CowIsolation.Isolation | lab5/lab5.md:455 | For any two runs of the kernel with the same acts and forks in a process's lineage, whatever everybody else does: the process is answered the same, its own forks included, and sees the same pages all along if and only if the pages that appeared for it held the same, memory was lacking at the same times, and the pids of its children were taken at the same times. |
| CowIsolation.AppearedWasFree | lab5/cow/pmm.c:464-466 | What a page shows when it appears is what a page that was free at that moment held. |
| CowIsolation.ReadsLeftover | lab5/cow/pmm.c:464-466 | If only the page of an exiting process is free, the next process that touches a missing page reads the byte stored there before. |
| CowIsolation.Leak | lab5/cow/pmm.c:464-466 | A concrete state from which that happens, for every byte: another process reads the secret. |
| CowRun.StoreWithFault | lab5/cow/vmm.c:432-469 | A store in a writable area with the fault it needs stores the byte, or no page is free; nobody else's data change. |
| CowHoles.CopyRangeEndsIff | lab5/cow/pmm.c:352-415 | With memory for every table and page it asks for, copy_range ends if and only if no existing table of the range has an invalid entry; in general, if and only if that holds or no page is free at a mapped page below the first hole. |
| CowHoles.StackStopsFork | lab5/cow/proc.c:639-647 | The stack area of a freshly loaded program starts with such a hole: given the first three structures its fork spins, with any amount of memory. |
| CowHoles.LoadThenFork | lab5/cow/proc.c:537-683 | From load_icode to fork: a program whose segments fit is loaded, its address space becomes the kernel's, and then its fork spins as soon as it has three structures, with any amount of memory; only an unplaceable program, or a lack of structures or frames, keeps it from getting there. |
| CowHoles.LoadedIsFresh | lab5/cow/proc.c:639-647 | Whatever load_icode leaves, the stack is the last area and exactly its top four pages are mapped. |
| CowHoles.CopyIn | lab5/cow/proc.c:600-647 | Page by page the kernel gets exactly the areas and pages of the loaded image, with their contents and permissions, or runs out of pages. |
| CowHoles.ExampleSpins | lab5/cow/pmm.c:352-415 | A concrete process with the stack of load_icode and any number of free pages: its fork spins. |
| PageTable.EntryRoundTrip | lab5/kern/mm/pmm.h:153-155 | Decoding an encoded user entry gives the entry back, and it is valid. |
| PageTable.LeafWord | lab5/kern/mm/mmu.h:70-77 | A leaf word has the frame from bit 10 up, V and U set, R, W and X as the entry says, and nothing else. |
| Sv39.TranslatesFlatMap | lab5/kern/mm/mmu.h:38-80 | The processor's walk over the words, by plain division and remainder, finds the entry's page with exactly its permissions where the flat map has an entry, and faults elsewhere. |
| Sv39.ThroughTrees | lab5/kern/mm/mmu.h:38-80 | The same walk and get_pte come to the same word. |
| PageTable.IndicesOfAddress | lab5/kern/mm/mmu.h:38-42 | The three 9-bit indices of an address are those of its page number. |
| PageTable.PageTables.GetPte | lab5/cow/pmm.c:214-239 | No translation of any process changes and no table moves. With create: no address outside the 2 MB block and no other process changes its walk, inside it only absent ones become zero words, and exactly the pages given for missing tables join the trees; without create: no change, and no slot exactly when the block has no table. |
| PageTable.PageTables.WriteEntry | lab5/cow/pmm.c:450 | Writing through the returned pointer changes the walk of one page of one process and no table. |
| PageTable.PageTables.OpenTable | lab5/cow/pmm.c:214-239 | A bare get_pte: the trees of all processes go on showing the flat map, with the table added if it was made. |
| PageTable.PageTables.PutEntry | lab5/cow/pmm.c:450 | Writing an entry into an existing table: the trees go on showing the flat map with that entry, on the same table pages. |
| PageTable.PageTables.InsertEntry | lab5/cow/pmm.c:436-453 | The trees of all processes go on showing the flat map, with the entry added; the word written has the frame from bit 10 up and the entry's flags in bits 0 to 4. |
| PageTable.PageTables.RemoveEntry | lab5/cow/pmm.c:256-268 | The trees of all processes go on showing the flat map, with the entry removed. |
| PageTable.PageTables.LookUp | lab5/cow/pmm.c:242-251 | What is read through the tree is the flat map's entry. |
| PageTable.PageTables.NewProcess | lab5/cow/proc.c:312-324 | A new page directory adds an address space without tables to what the trees show. |
| PageTable.PageTables.EndProcess | lab5/cow/proc.c:326-330 | Without its page directory the address space is gone, and the others show what they showed. |
| CowTables.Paging.GetPte | lab5/cow/pmm.c:214-239 | Kernel and trees together: both find the table, both make it on the same pages, or neither has it; the pages of the trees stay the kernel's tables and the page directories. |
| CowTables.SamePages | lab5/cow/pmm.c:216-236 | The pages that the kernel takes for the missing tables are exactly the pages that join the trees, and the trees have the table if and only if the kernel counts it. |
| CowTables.Paging.Insert | lab5/cow/pmm.c:436-453 | page_insert in both: the trees show the kernel's entries afterwards, whether it succeeded or not. |
| CowTables.Paging.Remove | lab5/cow/pmm.c:256-268 | page_remove_pte in both: the trees show the kernel's entries afterwards. |
| CowTables.Paging.PgFault | lab5/cow/vmm.c:396-525 | do_pgfault in both: get_pte comes first; the fault makes of one entry of one process what the count, the old entry and the area demand, or no page is free; and the trees show the kernel's entries. |
| CowTables.Paging.SharePage | lab5/cow/pmm.c:361-413 | The sharing of one page by copy_range in both: two entries change, and the trees show both. |
| CowTables.Paging.Spawn | lab5/cow/proc.c:312-324 | A new address space in the kernel and a new page directory in the trees keep the two joined. |
| CowTables.Paging.Exit | lab5/cow/proc.c:491-500 | After the exit the kernel has no entry of the process, and the trees show just the others. |
| CowTables.Paging.LookUp | lab5/cow/pmm.c:242-251 | What is read through the trees is the kernel's entry. |
| CowTables.Paging.ProcessorSees | lab5/cow/pmm.c:214-239 | In every joined state the processor's translation of a user address is the kernel's entry: its page, its offset and its permissions, or a fault. |
| CowTables.Paging.LoadsAgree | lab5/cow/pmm.c:214-239 | A load through the trees goes through exactly where the kernel's entry can be read, and reaches that byte. |
| Vma.Mm.FindVma | lab5/cow/vmm.c:77-101 | Whatever the cache holds, the answer is that of an uncached scan, and the cache stays a member of the list. |
| Vma.ContainingAreaIsUnique | lab5/cow/vmm.c:81-87 | In a sorted list one area at most contains an address, so a cached hit is the scan's answer. |
| Vma.NeighboursSuffice | lab5/cow/vmm.c:131-137 | Clearing the two neighbours is the same as clearing every area of the list. |
| Vma.RoundingIs | lab5/cow/vmm.c:162 | Both roundings are to the nearest page, down and up; in the top page of the address space rounding up gives 0. |
| Vma.Mm.InsertVma | lab5/cow/vmm.c:114-143 | Succeeds exactly if the area is nonempty and meets no other; then it is inserted in order and the count follows; otherwise an assert fires. |
| Vma.Mm.MmMap | lab5/cow/vmm.c:159-188 | Exactly when a range is mapped, refused, short of memory, or runs into an assert. |
| Vma.Mm.DupAreas | lab5/cow/vmm.c:190-203 | Walking backwards and inserting rebuilds the list, or a suffix of it when memory runs out. |
| Vma.UserMemCheck | lab5/cow/vmm.c:527-552 | Accepts a range exactly if it is a nonempty user range each of whose bytes lies in an area that can be written, for writes, and then not in the first page of a stack, or that can be read, for reads; it ends. |
| Loader.Image.LoadIcode | lab5/cow/proc.c:537-683 | Given a structure for each segment and the stack and three frames for each page asked for, loading succeeds if and only if the magic number is right, every p_filesz is at most p_memsz, the ranges are user ranges apart from each other and from the stack, and the file part of every wrapping segment is empty, wraps, too, or ends with a page; without enough, every failure has a cause: the program, or structures or frames that ran out. If it succeeds, all segments are right at once if and only if none wraps around 2^64; then byte k of a segment stands at p_va + k and is that of the file at p_offset + k, or zero from p_filesz on, in a page with the permissions of p_flags, inside an area that covers just its pages; and there are no other areas than theirs and the stack, and, if none wraps, of the stack exactly the top four pages are there. |
| Loader.Image.LoadSegment | lab5/cow/proc.c:567-638 | One header: -E_INVAL exactly if the range is no user range or its first page is in an area; the assert exactly if only a later page meets one; -E_NO_MEM only if the structure or frames are lacking; a stray write only for a wrapping segment; otherwise it is mapped, and a fitting segment is right and touches its own area only. |
| Loader.RightMeansInPlace | lab5/cow/proc.c:591-637 | Every byte of a segment that is right is the file's byte at p_offset plus its number, or zero from p_filesz on, with p_flags as permissions. |
| Loader.Image.FillPages | lab5/cow/proc.c:600-610 | The page-by-page loops show every byte from start to end and change no other page; they fail only with fewer than three frames left, and must succeed with three frames for each page, unless the range ends in the top page, where they never succeed. |
| Loader.Image.NextPage | lab5/cow/proc.c:627-637 | One turn fills one page from the cursor to its end or to the end of the range, in wrapping arithmetic. |
| Loader.Image.ClearTail | lab5/cow/proc.c:614-626 | The rest of the last file page is cleared and nothing copied before is lost; the assertion at line 625 never fires; the size exceeds the page exactly if the end lies before the cursor. |
| Loader.Image.Place | lab5/cow/proc.c:591-637 | File part and zero part of one segment together are right and stay within the segment's pages; with frames enough it fails only by a stray write of a wrapping segment. |
| Loader.Image.MapStack | lab5/cow/proc.c:639-647 | The stack area is apart from every segment, so that mapping it leaves them right; if none wraps, exactly its top four pages are mapped; it fails only if a segment meets it or structures or frames are lacking. |
| Loader.RightKept | lab5/cow/proc.c:567-638 | Placing pages in another area leaves a segment right. |
| Loader.RightFits | lab5/cow/proc.c:598-613 | A segment that wraps around is never right. |
| Loader.Accepted | lab5/cow/vmm.c:162-165 | What mm_map accepts of a segment: it fits into its area, or wraps around within one page. |
| Loader.WrapIsAccepted | lab5/cow/proc.c:588-613 | A concrete wrapping segment that mm_map accepts. |
| Loader.WrapIsLoaded | lab5/cow/proc.c:567-638 | load_icode loads that segment, given two structures and twelve frames, and its bytes are not there. |
| Pids.PidAllocator.GetPid | lab5/cow/proc.c:178-210 | Despite its shortcut it returns the first unused pid in cyclic order after the last one, and keeps the shortcut sound. |
| Pids.PidAllocator.Search | lab5/cow/proc.c:187-207 | The search with its restarts ends whenever a pid is unused, at the first unused one. |
| Pids.FirstUnusedMeans | lab5/cow/proc.c:178-210 | First unused in plain numbers: no unused pid lies between the last one and the new one, going around at 8192. |
| Pids.FewPidsLeaveOneUnused | lab5/cow/proc.c:180 | With fewer processes than pids some pid is unused. |
| Pids.RunAllocator | lab5/cow/proc.c:178-210 | From boot on, over every run of forks and reaps, get_pid hands out the first unused pid in cyclic order behind the one handed out before, so that those in use are distinct and in range at every moment. |
| Family.SetLinks | lab5/cow/proc.c:149-159 | The new process is the youngest child of its parent; all child lists stay exact. |
| Family.RemoveLinks | lab5/cow/proc.c:161-175 | The process leaves its parent's list; all child lists stay exact. |
| Family.Reparent | lab5/cow/proc.c:511-526 | One turn of the reparenting loop, with its wakeup. |
| Family.OntoIs | lab5/cow/proc.c:511-520 | Children handed over stand in front of those of their new parent, in the opposite order. |
| Family.Disown | lab5/cow/proc.c:507-527 | After the loop the child lists are exact again, with all children of the exiting process at initproc, who is awake if one of them is a zombie. |
| Lifecycle.ForkSound | lab5/cow/proc.c:442-467 | A runnable youngest child keeps every process sound. |
| Lifecycle.ExitSound | lab5/cow/proc.c:501-526 | An exit, with the wakeups of parent and initproc, loses no wakeup: every process stays sound. |
| Lifecycle.WakeSound | lab5/cow/proc.c:799-802 | Waking a sleeping process is sound. |
| Lifecycle.SleepSound | lab5/cow/proc.c:764-767 | Going to sleep with a matching child and no matching zombie is sound. |
| Lifecycle.ReapSound | lab5/cow/proc.c:782-789 | Reaping a zombie keeps every process sound. |
| Procs.ProcTable.FindProc | lab5/cow/proc.c:267-279 | Looking into one hash bucket finds what a scan of the whole list would find. |
| Procs.ProcTable.Schedule | lab5/kern/schedule/sched.c:25-51 | The walk along the ring, with its list head and its last element, ends; whoever is chosen can run, nobody who can run stands between the old current process and it, going around the list, the old one comes last, and idleproc is chosen only if nobody can run. |
| Lifecycle.ElectedIsNext | lab5/kern/schedule/sched.c:32-44 | The round robin passes nobody over who can run. |
| Procs.ProcTable.Fork | lab5/cow/proc.c:398-477 | The error for a full table or lack of memory, or: the child heads the list, is runnable, the caller's youngest child, and has the first unused pid; all views stay in agreement; the assertion about wait_state never fires. |
| Procs.ProcTable.Exit | lab5/cow/proc.c:484-531 | Panics exactly for idleproc and initproc; otherwise the caller is a zombie with its code, its children are initproc's; of the others exactly the parent, if it slept, and initproc, if it slept and got a zombie, are awake now; nobody else's exit changes, and the process that the round robin elects runs. |
| Procs.ProcTable.Wait | lab5/cow/proc.c:734-791 | A zombie among the matching children, the youngest if any will do, is reaped and its code delivered; without one the caller sleeps and the round robin elects another process; without a matching child the error; the panic for idleproc and initproc never fires. |
| Procs.ProcTable.FindZombie | lab5/cow/proc.c:745-763 | Finds a zombie among the matching children, through the hash index or along the sibling links, if there is one, the youngest in the latter case, and says whether a matching child exists. |
| Procs.ProcTable.Reap | lab5/cow/proc.c:782-789 | The zombie leaves hash index, list and its parent's children, and nothing else moves. |
| Procs.ProcTable.Kill | lab5/cow/proc.c:794-808 | Marks the process with that pid and wakes it if it slept unmarked; no other process changes; a zombie keeps its state. |
| Procs.ProcTable.Bequeath | lab5/cow/proc.c:511-526 | The reparenting loop seen from the table: relation links and ages stay right. |
| Procs.ProcTable.ChildrenOfCurrent | lab5/cow/proc.c:747-748 | The children of current are the listed processes with that parent, and no two share a pid. |
| Procs.ProcInit | lab5/cow/proc.c:890-921 | After boot idleproc has pid 0, initproc pid 1, and everything agrees. |
| Procs.FirstPid | lab5/cow/proc.c:911-920 | The first pid handed out is 1. |
| ProcRun.Step | lab5/cow/proc.c:764-771 | Every atomic step keeps the table valid and is one of the machine of values: whose turn it is, what the call demands, and exactly what changes. |
| ProcRun.StepGoOn | lab5/cow/proc.c:767-771 | A process woken in do_wait exits with -E_KILLED if it was marked, and looks again otherwise. |
| ProcRun.Run | lab5/cow/proc.c:398-808 | Every run is, moment by moment, a run of the machine of values from the table it starts with to the one it ends with, and every call is answered unless initproc exits; starting without zombies and marks, each process exits at most once, with the code of its call, or with -E_KILLED after a kill of that process; it is reaped at most once, and the wait that reaps it delivers that code. |
| ProcRun.BootAndRun | lab5/cow/proc.c:890-931 | From boot on, over every run, initproc stays the only child of idleproc, and idleproc takes the first turn and no other. |
| ProcRun.Coherence | lab5/cow/proc.c:149-175 | What the table's links and indexes say is the same as values: distinct pids, one parent each, parents behind their children on the list, sound states. |
| ProcMachine.TracedHistory | lab5/cow/proc.c:484-808 | Over any run of the machine of values that starts without zombies and marks: who is a zombie exited with that code, whoever exits with -E_KILLED in its sleep was killed before, nobody exits, is marked or is reaped twice. |
| ProcMachine.SomebodyCanRun | lab5/cow/proc.c:764-767 | There is no deadlock: in every coherent table somebody on the list can run, because a chain of sleepers ends at a runnable process. |
| ProcMachine.NeverIdle | lab5/kern/schedule/sched.c:42-44 | After every step, whoever schedule elects is not idleproc. |
| ProcMachine.IdleOnlyFirst | lab5/cow/proc.c:924-931 | Over any run idleproc takes no turn but the first. |
| ProcMachine.NoStarvation | lab5/kern/schedule/sched.c:32-44 | Over any run, between two turns that schedule gives to a process it gives one to everybody who stays listed and can run, whatever is forked and reaped meanwhile. |
| ProcRun.NoLostWakeup | lab5/cow/proc.c:745-767 | While a process sleeps in do_wait, no zombie it waits for has it as parent, born to it or handed over. |
| ProcRun.RootedAtIdle | lab5/cow/proc.c:511-526 | Parent links form a tree with idleproc as root. |
| ProcRun.NothingDangles | lab5/cow/proc.c:782-789 | No relation link of a listed process leads to one that was freed. |
| ProcRun.InitIsAlone | lab5/cow/proc.c:873-881 | When initproc has no child left, the asserts of init_main hold: it is alone on the list, nr_process is 2, and it has no links. |
| Ring.Link | lab5/libs/list.h:141-147 | Adding between two neighbours inserts the entry there in the ring. |
| Ring.ListAddAfter | lab5/libs/list.h:79-82 | The entry goes right behind the given one. |
| Ring.ListAddBefore | lab5/libs/list.h:66-69 | The entry goes right before the given one, at the end if that is the head. |
| Ring.ListDel | lab5/libs/list.h:91-94 | The entry leaves the ring, and the others keep their order. |
| Ring.ListEmpty | lab5/libs/list.h:112-115 | True exactly for a ring of one. |
| Ring.RingIsDetermined | lab5/libs/list.h:118-135 | The pointers determine the order of all entries. |
| Ring.AddThenDelete | lab5/libs/list.h:141-158 | Deleting what was just added restores every pointer. |
| SkewTree.MergeAmortized | lab6/libs/skew_heap.h:29-59 | The calls of one merge plus the change of the potential are at most one plus three logarithms. |
| SkewTree.RunCost | lab6/libs/skew_heap.h:29-85 | m insertions and removals of arbitrary nodes on at most n nodes take at most m(1 + 4 log(n+1)) calls. |
| SkewTree.TippedLogarithmic | lab6/libs/skew_heap.h:73-83 | Removing a node tips at most log n of its ancestors. |
| SkewTree.RunRefinesSet | lab6/libs/skew_heap.h:61-85 | Any sequence of insertions and removals leaves a heap that holds exactly the set the same operations leave. |
| SkewTree.RootIsMinimum | lab6/libs/skew_heap.h:37 | The root of a heap is a minimum. |
| SkewTree.MergeHeap | lab6/libs/skew_heap.h:29-59 | Merging keeps heap order for any total preorder. |
| SkewTree.MergeRoot | lab6/libs/skew_heap.h:37-58 | The first root wins only if it is less, the second one on a tie, and the winner's children change sides. |
| SkewTree.RemoveElems | lab6/libs/skew_heap.h:69-85 | Removal takes out exactly the intended node. |
| SkewHeap.MergeNodes | lab6/libs/skew_heap.h:29-59 | The pointers after an in-place merge are those of the merged tree, parent being the inverse of left and right, in as many calls as the tree model counts. |
| SkewHeap.InsertNode | lab6/libs/skew_heap.h:61-67 | In-place insertion gives the tree with the node merged in and a root without parent. |
| SkewHeap.RemoveNode | lab6/libs/skew_heap.h:69-85 | In-place removal of any node gives the tree without it, with a root without parent. |
| SkewHeap.RunPool.Dequeue | lab6/libs/skew_heap.h:69-85 | The pool holds the same nodes without the given one, still a heap. |
| Rand.FullPeriod | lab5/libs/rand.c:11-16 | From every state the next 2^48 states are distinct, are all states, and close the cycle. |
| Rand.Generator.Rand | lab5/libs/rand.c:11-16 | The next state, and a result between 1 and RAND_MAX. |
| Rand.NoShortCycle | lab5/libs/rand.c:13 | No state comes back before 2^48 draws. |
| Rand.NextIsAffine | lab5/libs/rand.c:13 | The 64-bit wrap-around does not disturb the low 48 bits. |
| Numerals.RoundTrip | lab5/libs/printfmt.c:40-54 | For base 8, 10 and 16, any width and pad: what printnum writes has the width as minimum, strtol reads it to the end and modulo 2^64 as the number, and as the number itself if and only if a long holds it. |
| Numerals.SignedRoundTrip | lab5/libs/printfmt.c:235-242 | For every long, the least included, "%d" reads back if and only if no blanks stand between sign and digits. |
| Numerals.PointerRoundTrip | lab5/libs/printfmt.c:257-262 | "%p" reads back modulo 2^64, in base 16 and without a base, if and only if no blanks follow the prefix, and as the same number if and only if it is also below 2^63. |
| Numerals.DigitsDenote | lab5/libs/printfmt.c:42-54 | The digits denote the number, are digits of the base, and have no leading zero. |
| Numerals.Strtol | lab5/libs/string.c:204-259 | Blanks, sign, prefix and the longest run of digits are read; the value, wrapped to a long at every step, is the denoted number wrapped once. |
| Numerals.ReadsAs | lab5/libs/string.c:208-258 | Character by character: blanks and tabs, one sign, "0x" in base 16 or 0, a leading 0 as octal in base 0, then all digits below the radix and no further. |
| Numerals.DigitOfIs | lab5/libs/string.c:236-244 | Digits and letters of both cases have their values, and nothing else has one. |
| Numerals.ValueSplits | lab5/libs/string.c:251 | Positional notation: what stands in front counts once more times the base for each digit behind it. |
| Numerals.DigitsAreNumeral | lab5/libs/printfmt.c:54 | printnum's digits are '0' to '9' and 'a' to 'f' below the base, with that value, and no zero in front. |
| Numerals.CapitalPrefix | lab5/libs/string.c:198-224 | A prefix "0X" is not read. |
| Printf.PrintNum | lab5/libs/printfmt.c:39-61 | The recursion emits the padded positional notation. |
| Printf.PrintString | lab5/libs/printfmt.c:212-232 | "%s" emits the limited and masked string padded to the width on the proper side. |
| Printf.Strnlen | lab5/libs/string.c:33-40 | The length up to the limit. |
| Printf.ScanFlags | lab5/libs/printfmt.c:145-190 | The switch with its jumps collects the flags, width, precision and consumed arguments of the recursive scan. |
| Printf.FlagsHoldNoPercent | lab5/libs/printfmt.c:278-282 | Rewinding to the last '%' stops right after the one that began the escape. |
| Printf.Vprintfmt | lab5/libs/printfmt.c:125-285 | Ends on every format, and emits exactly what the recursive rendering says. |
| Formats.EveryEscapeHasPieces | lab5/libs/printfmt.c:145-190 | Behind every '%' stands a sequence of flags, numbers, points and stars up to the conversion. |
| Formats.EscapeSays | lab5/libs/printfmt.c:141-190 | What they say: padding by the last of '-' and '0', blanks otherwise; long after an 'l'; the first point or number from 0 on is the width and the last number behind it the precision; each star takes an argument. |
| Formats.NumberField | lab5/libs/printfmt.c:245-270 | "%u", "%o" and "%x" write the numeral in base 10, 8 or 16 of the argument modulo 2^32, or 2^64 after 'l', filled up on the left to the width; without '-' strtol reads it back. |
| Formats.SignedField | lab5/libs/printfmt.c:235-242 | "%d" writes the sign, the padding and the numeral of the magnitude of the int, or the long after 'l'; strtol reads it back if and only if no blanks stand in between. |
| Formats.PointerField | lab5/libs/printfmt.c:257-263 | "%p" writes "0x" and the numeral of the whole argument in base 16. |
| Formats.CharField | lab5/libs/printfmt.c:193-275 | "%c" writes the character of the argument's low byte, "%%" a '%' without an argument. |
| Formats.ErrorField | lab5/libs/printfmt.c:198-209 | "%e" writes the text of the error of the argument's magnitude, or "error " and its numeral. |
| Formats.StringField | lab5/libs/printfmt.c:212-232 | "%s" writes the string, or "(null)", up to the precision, with '?' after '#' for what cannot be shown, filled up to the width. |
| Formats.UnknownField | lab5/libs/printfmt.c:278-282 | Anything else prints the '%' and goes on right behind it. |
| Formats.PlainUpTo | lab5/libs/printfmt.c:133-138 | What stands before a '%' is printed as it stands. |
| Printf.PlainText | lab5/libs/printfmt.c:131-136 | A format without '%' is printed as it stands. |
| Printf.FieldWidth | lab5/libs/printfmt.c:212-232 | A "%s" field is exactly as long as the larger of its width and what it shows, which stands at the proper end. |
| Printf.MaskedAt | lab5/libs/printfmt.c:222-227 | With '#', exactly the characters that cannot be shown become question marks. |
| Printf.SprintBuf.Putch | lab5/libs/printfmt.c:299-305 | Characters are stored while there is room and counted always. |
| Printf.Vsnprintf | lab5/libs/printfmt.c:337-348 | Stores the first min(total, size-1) characters and a NUL, returns the total, writes nothing else; an error for no buffer or size 0. |
| Printf.LongRoundTrip | lab5/libs/printfmt.c:235-242 | "%ld" prints every long so that strtol reads it back. |

## Left out

- exit_range: reclaims page-table pages under a condition opposite to its own comment, so statements about conservation are about data pages only.
- Cow.Kernel.ExitMmap: the second loop, which calls exit_range on every area, is not modelled, so tables stay allocated.
- Cow.Kernel.Exit: the page directory and the mm structure are not counted among the free pages again.
- Cow.Kernel.Fork: the mm structure, the page directory and one structure per area are a number of small allocations that can be made; free pages after a fork are bounded from below only, because `copy_range` allocates a page per shared page that is never used.
- Cow.Kernel.SharePage: the assert about the spare page is a Panic outcome, after which a run stops.
- CowRun.StepStore: a store on a page that is not there only faults; demand paging is an event of its own.
- Cow.Kernel.PgFault: entries that are neither valid nor zero belong to swapping, which is taken as switched off.
- Cow.Kernel.Load and Cow.Kernel.Store: stand for the processor's accesses, which the source does not contain; accessed and dirty bits, the TLB and PTE_X are not modelled beyond the flag's value.
- PageTable.PageTables.GetPte: the half of the root page that maps the kernel is not modelled, and fresh table pages are given as parameters.
- CowTables.Paging.Exit: the loops of unmap_range and copy_range run in `Cow.Kernel`; here their single steps are joined with the trees. Page directories are taken from outside the kernel's counted pages, and the words of tables that no directory leads to any more are not looked at.
- Vma.Mm.InsertVma: the area list is a sequence in a field; Ring shows the pointers of such a list.
- Loader.Image.LoadIcode: the ELF header, the page directory and the final trapframe are reduced to whether the magic number is right; cleaning up after a failure is not modelled; the program file is a total function from offsets to bytes, because the loader never compares offsets with the file's size; a wrapping segment may name addresses that Sv39 would alias.
- Loader.Image.AllocPage: a page costs one to three frames, as tables are needed; how many is any choice. kmalloc is a number of structures that can be had.
- Loader.Image.FillPages: both loops of the source are one method with the bytes as a parameter.
- Procs.ProcTable.Schedule: the list is a sequence and le a position in it, 0 being the list head; the counter of runs and need_resched are not modelled.
- Procs.ProcTable.Fork: kernel stack and memory are one parameter that says whether they were available; a failing alloc_proc, which leads the source to an unset structure, is not modelled; address spaces, names and trapframes of processes are not part of this table.
- Procs.ProcTable.Wait: whether the exit code can be stored is a parameter; put_kstack and kfree are the end of a process's membership in the table.
- Procs.ProcTable.FindProc: list and hash buckets are sequences in fields; Ring shows the pointers of such lists.
- ProcRun.Step: interrupts are masked inside a step; idleproc only yields after boot, as cpu_idle does; the exit of a marked process on its return from a trap (lab5/kern/trap/trap.c:288-290) is a call of do_exit with -E_KILLED like any other, and nothing forces it.
- Family.Reparent: kernel threads and user processes are not distinguished; a new process has pid 0 rather than -1 until it gets its own.
- SkewHeap.MergeNodes: recursion depth and stack use are not modelled.
- SkewTree.RunRefinesSet: the comparator is any total preorder on the nodes; the stride scheduler's own comparison is not part of this model.
- Rand.Generator.Rand: do_div is used on values below 2^36, so its 64-bit division is exact.
- Printf.ScanFlags: does not model the 32-bit wrap-around of a width or precision beyond an int, whose value C leaves undefined.
- Printf.Vprintfmt: overflow of an int width, precision or count is not modelled; the error texts of "%e" are a parameter, and its argument INT_MIN, which the source does not negate, counts as positive; the console as a sink is left out.
- Sv39.Translate: words are unbounded where the architecture has 54 bits below its extensions, accessed and dirty bits never fault, and only the lower, user half of the address space is stated.
- Printf.Conversion: arguments are 64-bit slots, of which an int takes the low half.
- lab5/kern/pmm.c, lab5/kern/vmm.c and lab2/SLUB/slub.c: earlier or separate attempts that keep no such invariants.
- Boot-time self checks, user programs, console and disk drivers, trap entry and context switching: hardware, tests and plumbing.
