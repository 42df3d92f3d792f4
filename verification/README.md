# Memory, storage and console of a small i686 kernel

A Dafny model of the parts of the kernel that keep state: the heap, the physical frame allocator and
the page tables, the RAM file system with its descriptors and the shell's current directory, the text
console with the line editor, and the C library routines with loops. Code that works in place is
modelled in place: objects and buffers are classes and arrays, loops are loops, and every operation is
proved against a value (a block list, a set of frames, a log, a tree) about which the laws are proved.
`dafny verify dfyconfig.toml` checks everything.

| files | what they hold |
|---|---|
| `Machine`, `HeapLayout`, `HeapImage`, `Heap` | bytes and words; the block list as a value; when memory spells a block list; the allocator over raw memory |
| `HeapRuns`, `HeapClients`, `HeapRoom` | bracketed runs of calls, alignment and size of grants; arbitrary runs of calls and client stores; what the end of the heap can still serve |
| `Bits`, `Frames`, `Paging` | the packed bitmap as a set of frames, its allocator and its clients; the page tables and the two-level walk |
| `FileTree`, `Paths`, `Nodes` | the directory structure as a value; path lookup; the nodes with their child tables |
| `FsSteps`, `RamFs`, `FsBudget`, `FsRuns`, `ShellCommands` | what each file operation does to the state; files in the heap and the descriptor calls; what operations cost, and booting; runs of file operations; the shell's directory commands |
| `ScreenLog`, `Console`, `LineEditor` | the console as a log, as a screen, and the line being typed |
| `Tokenizing`, `CString`, `StringOps`, `Printing` | maximal runs; strings in memory and `strtok`; the other string functions; integer printing |

What the proofs found:

- `kfree` never merges backwards. The last check of the in-tree heap test (line 53 of
  `src/kernel/tests/heaptest.cpp`) therefore fails on a fresh heap (`HeapTestExpectationFails`); when
  freeing does coalesce is `CoalescesIff`.
- `align16` wraps for requests above 2^32 - 16: a block of 0 bytes is granted (`MinimumSizeIff`,
  `GrantCoversIff`), and `krealloc` may copy past it; when the copy fits is `CopyFitsIff`, and
  `WrappedGrowth` is a call for which it does not.
- Despite the comment in `kmalloc`, addresses are not aligned to 16 bytes, since headers are 12 bytes long:
  they are multiples of 4, the first one of a heap is 12 beyond a multiple of 16, and `AlignedIff` and
  `RoundedAlignedIff` say which are (`MallocAlignment` for every run).
- Nothing marks the heap as used in the frame bitmap: `allocate_frame` hands out frames of the heap as soon
  as those between bitmap and heap are held (`HeapGrantedIff`, `HeapHandedOutIff`).
- The bound test of `fs_read` is right if and only if offset plus size does not wrap (`CutIsRightIff`).
- The one-argument `fs_find_by_path` ignores a last component that no slash closes (`WalkersAgreeIff`).
  `fs_mkdir("/x")` and `fs_touch("/x")` therefore always fail, and `g/d/name` is made in `g`
  (`CreationParent`).
- `fs_remove_child` on a directory leaves the odd-indexed children of every directory it visits, since
  the list shrinks while the index advances (`RemovalTheorem`).
- A directory made with an argument of 64 characters or more is stored under a shorter name and is not
  found under the argument (`MadeIsFoundIff`).
- `vmm_map` misplaces or loses mappings once the page of a table has been mapped elsewhere
  (`MapTakesEffectIff`, `RetargetRedirects`, `RetargetMisplaces`).
- The shell compares scancodes with ASCII codes, which makes `7`, `9` and `=` impossible to type
  (`UntypableCharacters`).
- `clear` sends no cursor position (`Clear`), `free_frame` keeps its counter right only for frames in use
  (`FreeFrame`), and `int_to_string` prints 0 as the empty string (`IntToString`).

Conventions: 32-bit values are integers below 2^32 with wrap-around written out where the code can reach
it; bit operations are modelled on binary digits; addresses are numbers, and a NULL result is 0. A
`stuck` result marks the runs in which the source goes through a NULL pointer. Headers, payloads and file
contents are bytes of one memory array; the fields of file system nodes are object fields, and the heap
blocks that hold the nodes and their tables are accounted for, without a second copy of the fields.

## Model

| member | source | states |
|---|---|---|
| HeapLayout.AlignCovers | src/kernel/heap.cpp:19-21 | rounding gives a multiple of 16 that covers the request by at most 15, and wraps to 0 exactly above 2^32 - 16 |
| HeapLayout.MallocMeans | src/kernel/heap.cpp:34-61 | the block granted is the lowest free one that holds the rounded size; none is granted exactly for an empty request or when there is no such block |
| Heap.Heap.Init | src/kernel/heap.cpp:24-31 | memory spells one free block over the whole heap, and only the first header is written |
| Heap.Heap.Find | src/kernel/heap.cpp:46-56 | the walk along the headers stops at the first block that fits, or at NULL when there is none |
| Heap.Heap.Grant | src/kernel/heap.cpp:64-75 | the block found is granted whole or split in front of a new free block; memory spells exactly that list and every other payload keeps its bytes |
| Heap.Heap.Malloc | src/kernel/heap.cpp:34-79 | exact first fit: the lowest block that fits, NULL exactly when there is none and then nothing changes; the payload exceeds the rounded request by at most 24 bytes; every other live payload is untouched |
| Heap.Heap.Free | src/kernel/heap.cpp:82-94 | NULL is ignored; a live payload is released, merged with the following block if that is free and never with the preceding one; every other payload is untouched |
| Heap.Heap.Realloc | src/kernel/heap.cpp:97-121 | whenever the old data fits the block granted, all branches: size 0 frees, NULL allocates, a block that fits stays as it is, growth moves to a block that starts with the whole old payload and releases the old one, failure changes nothing |
| Heap.Heap.Relocate | src/kernel/heap.cpp:117-118 | the copy is in bounds, arrives unchanged, and only then the old block is released |
| Heap.Heap.Store | src/kernel/ramfs.cpp:152-153 | a store inside a live payload changes that payload only and disturbs no header |
| HeapImage.ChainVisitsBlocks | src/kernel/heap.cpp:50-56 | following `next` from the heap start visits every header once, in address order, and ends with NULL |
| HeapImage.ImageUnique | src/kernel/heap.cpp:9-13 | the headers in memory determine the block list |
| HeapImage.PayloadsDisjoint | src/kernel/heap.cpp:63-78 | payloads are pairwise disjoint, lie inside the heap and avoid every header |
| HeapImage.RepresentsSplice | src/kernel/heap.cpp:63-94 | replacing some blocks by others of the same total span, in memory, keeps the image of all other blocks and the bytes of all other payloads |
| HeapRuns.FreeUndoesMalloc | src/kernel/heap.cpp:34-94 | freeing at once what was allocated restores the list, exactly unless a whole block with a free neighbour behind it was granted |
| HeapRuns.MallocKeepsNoAdjacentFree | src/kernel/heap.cpp:63-74 | allocation never puts two free blocks side by side |
| HeapRuns.NestedRunIsIdentity | src/kernel/heap.cpp:34-94 | from a list without adjacent free blocks every properly bracketed run restores exactly the list, failed and empty allocations included |
| HeapRuns.RunNested | src/kernel/heap.cpp:34-94 | the same on raw memory: every call is given the address the run prescribes, and the block list and every live payload come back |
| HeapRuns.CoalescesIff | src/kernel/heap.cpp:82-94 | freeing leaves no adjacent free blocks if and only if the preceding block is in use |
| HeapRuns.MinimumSizeIff | src/kernel/heap.cpp:63-72 | blocks of at least 16 bytes stay so if and only if no wrapped request is cut from a bigger block |
| HeapRuns.FreeKeepsMinimumSize | src/kernel/heap.cpp:89-93 | freeing makes no block smaller than 16 bytes |
| HeapRuns.GrantCoversIff | src/kernel/heap.cpp:19-72 | the block granted holds the bytes asked for if and only if the rounding does not wrap |
| HeapRuns.CopyFitsIff | src/kernel/heap.cpp:107-117 | the copy of a growing block stays inside the block granted if and only if the request does not wrap, there is nothing to copy, or a small block is granted whole that is no smaller |
| HeapRuns.WrappedGrowth | src/kernel/heap.cpp:107-117 | on a fresh heap, a block of 16 bytes grown to 2^32 - 8 is granted an empty block, and the copy does not fit |
| HeapRuns.AlignedIff | src/kernel/heap.cpp:39-75 | which payloads are aligned to 16 bytes, from the number and the sizes of the blocks before |
| HeapRuns.RoundedAlignedIff | src/kernel/heap.cpp:39-75 | behind blocks of rounded sizes exactly every fourth payload is |
| HeapRuns.PayloadsWordAligned | src/kernel/heap.cpp:39-75 | all payloads are aligned to 4 bytes, and the first one of a heap never to 8 or 16 |
| HeapRuns.HeapTestExpectationFails | src/kernel/tests/heaptest.cpp:9-57 | call by call from a fresh heap: the reuse check passes, the merging check fails |
| HeapClients.MallocKeepsTiling | src/kernel/heap.cpp:63-72 | after an allocation the blocks still tile the heap, with sizes that are multiples of 4 |
| HeapClients.FreeKeepsTiling | src/kernel/heap.cpp:89-93 | the same after a release |
| HeapClients.RunKeepsTiling | src/kernel/heap.cpp:24-121 | in every legal run of calls and stores headers and payloads tile the heap exactly |
| HeapClients.RunKeepsMinimumSize | src/kernel/heap.cpp:34-121 | in every legal run without a request whose rounding wraps all blocks keep at least 16 bytes |
| HeapClients.MallocAlignment | src/kernel/heap.cpp:34-121 | after every legal run: `kmalloc` returns a multiple of 4, in the first block never a multiple of 16, and behind rounded sizes one exactly in every fourth block |
| HeapClients.Run | src/kernel/heap.cpp:24-121 | in every legal run over raw memory the headers spell the list the run prescribes, and a live payload that no call names keeps every byte |
| HeapRoom.MallocSpare | src/kernel/heap.cpp:34-79 | a request that the free block at the end of the heap can serve is granted, and that block shrinks by no more than the rounded request and a header |
| HeapRoom.FreeSpare | src/kernel/heap.cpp:82-94 | freeing never makes the free block at the end smaller |
| Bits.MarkAdds | src/kernel/memory.cpp:89-94 | setting a bit adds exactly one frame to the set the words stand for |
| Bits.ClearRemoves | src/kernel/memory.cpp:96-101 | clearing a bit removes exactly one frame |
| Bits.CountUnmarked | src/kernel/memory.cpp:84-87 | total minus used counts the unmarked frames |
| Frames.PhysicalMemoryManager.Initialize | src/kernel/memory.cpp:17-57 | for any memory size, counted in 32 bits: the bitmap stands at the first page boundary behind the kernel image and has a bit for every frame; exactly the frames that begin below its end are in use, and the counter agrees |
| Frames.PhysicalMemoryManager.SetFrame | src/kernel/memory.cpp:89-94 | the set of used frames gains one frame |
| Frames.PhysicalMemoryManager.ClearFrame | src/kernel/memory.cpp:96-101 | the set of used frames loses one frame |
| Frames.PhysicalMemoryManager.TestFrame | src/kernel/memory.cpp:103-108 | membership in the set |
| Frames.PhysicalMemoryManager.FirstFree | src/kernel/memory.cpp:110-135 | the least free frame, or the reserved value exactly when every frame is used |
| Frames.PhysicalMemoryManager.AllocateFrame | src/kernel/memory.cpp:59-69 | the least free frame becomes used and the counter stays right; NULL and no change when there is none |
| Frames.PhysicalMemoryManager.FreeFrame | src/kernel/memory.cpp:71-77 | the frame becomes free; the counter stays right if and only if it was in use |
| Frames.PhysicalMemoryManager.GetFreeFrames | src/kernel/memory.cpp:84-87 | the number of allocatable frames |
| FrameClients.Client.AcquireFrame | src/kernel/memory.cpp:59-69 | a frame handed out is unheld, inside memory and behind the last byte of the bitmap; NULL if and only if every frame is reserved or held |
| FrameClients.Client.Run | src/kernel/memory.cpp:59-77 | in every run of clients that give back only what they hold, the bitmap is exactly reserved plus held, the counter agrees, and each request takes the least available frame and nothing else |
| FrameClients.RunsReserve | src/kernel/memory.cpp:59-77 | in every run the frames held are in memory and behind the bitmap |
| FrameClients.HeldUntilReturned | src/kernel/memory.cpp:59-77 | in every run a frame stays with its holder until it is given back, and no request in between is given the same frame |
| FrameClients.HeapGrantedIff | src/kernel/memory.cpp:17-69 | in every run a request is given a frame of the heap if and only if all frames between bitmap and heap are held and one of the heap's is not |
| FrameClients.RequestsInOrder | src/kernel/memory.cpp:59-135 | after any number of requests of a fresh client exactly as many frames behind the bitmap are held, the lowest ones, or all there are |
| FrameClients.HeapHandedOutIff | src/kernel/memory.cpp:17-69 | the request from which on a fresh client holds frames of the heap |
| Paging.WalkWired | src/kernel/paging.cpp:60-74 | what the two-level walk of any page gives on the kernel's tables |
| Paging.Vmm.constructor | src/kernel/paging.cpp:46-88 | after the initialisation the walk is the identity, writable, below 16 MiB and nothing above; every word of the directory and the tables is stated, flags included |
| Paging.SettledTarget | src/kernel/paging.cpp:134-138 | while the paging structures map to themselves, a store through the table's virtual address reaches the table |
| Paging.SettledUpdate | src/kernel/paging.cpp:137-138 | one entry changes the translation of one page, for all pages |
| Paging.StoredWord | src/kernel/paging.cpp:137-138 | the word stored is the frame asked for with the flags present and, if asked for, writable; user access is never opened |
| Paging.LastMappingIs | src/kernel/paging.cpp:121-144 | the prescribed mapping of a page is that of its last call, or the writable identity when there was none |
| Paging.SettledMap | src/kernel/paging.cpp:121-144 | a call that retargets no paging structure: below 16 MiB the page gets the frame and the flag asked for and no other translation changes; above nothing happens |
| Paging.AfterMapWired | src/kernel/paging.cpp:125-138 | while the directory's page maps to itself, the call stores one entry through the current mapping of the table's page, or nothing |
| Paging.Vmm.Map | src/kernel/paging.cpp:121-144 | on any tables, retargeted ones included: the directory entry is read and the table entry stored through the walk as it stands; every word that changes becomes the frame and the flags asked for |
| Paging.Vmm.Run | src/kernel/paging.cpp:121-144 | after every run that retargets no paging structure, the walk of any page gives its last mapping, else the identity below 16 MiB, else nothing |
| Paging.MapTakesEffectIff | src/kernel/paging.cpp:125-138 | while the directory's own page is mapped to itself, and wherever the page of the table is: a mapping takes effect if and only if that is the table itself or the entry said so before; where the call overwrites its own directory entry, if and only if the new table serves |
| Paging.MapReachesFrame | src/kernel/paging.cpp:125-138 | the effect of a call on every page when the table's page is mapped to any frame but the directory's: the same entry of the table in that frame changes, or nothing does |
| Paging.MapReachesDirectory | src/kernel/paging.cpp:125-138 | the same when it is mapped to the directory: the pages under one directory entry are walked through the frame of the call, and no other changes |
| Paging.RetargetRedirects | src/kernel/paging.cpp:121-144 | after a call that moves a table's page to any frame but the directory's, a call for that table changes exactly the page with the same entry in the table of that frame, or none |
| Paging.RetargetMisplaces | src/kernel/paging.cpp:121-144 | moved to the frame of another table, the mapping goes to that table's page and the page asked for stays as it was |
| FileTree.RemovalTheorem | src/kernel/ramfs.cpp:53-78 | removal detaches exactly the child and what hangs below it, keeps the other children in order, leaves the odd-indexed children in the removed directory and touches nothing outside |
| FileTree.RemovalAlong | src/kernel/ramfs.cpp:60-67 | at every depth below the child: a node reached through even positions only keeps exactly its odd-indexed children, one behind an odd position keeps all |
| FileTree.OddsAt | src/kernel/ramfs.cpp:64-67 | half of the children stay, and the one at index i is the one that stood at 2i + 1 |
| FileTree.WithoutAt | src/kernel/ramfs.cpp:70-75 | the list loses the entry at one index, and the others keep their order |
| FileTree.RemovedDetaches | src/kernel/ramfs.cpp:53-78 | what is still attached was attached before and does not lie below the child |
| FileTree.RemovedKeeps | src/kernel/ramfs.cpp:53-78 | what does not lie below the child stays attached |
| FileTree.PartialStep | src/kernel/ramfs.cpp:64-67 | one round of the loop over the shrinking list removes the next even-indexed child of the original list |
| FileTree.PartialEnd | src/kernel/ramfs.cpp:64-67 | when the loop ends, every directory visited keeps its odd-indexed children |
| FileTree.BelowIsDeeper | src/kernel/shell.cpp:109-139 | no node lies below a deeper one, so a directory is not removed with its own descendants |
| FileTree.ClimbToRoot | src/kernel/shell.cpp:41-48 | from an attached node the root is reached after exactly as many parent links as the node is deep |
| Nodes.Directory.RemoveChild | src/kernel/ramfs.cpp:53-78 | on the node objects: terminates, and the structure becomes the one of the removal theorem, or stays when the child is not listed |
| Nodes.Directory.PruneChildren | src/kernel/ramfs.cpp:62-68 | the recursive loop leaves the pruned structure |
| Nodes.Directory.AddChild | src/kernel/ramfs.cpp:40-51 | the child becomes the last entry, points back at its parent, and all other entries stay, unless the parent is NULL, a file or full; no name is checked |
| Nodes.Directory.FindChild | src/kernel/ramfs.cpp:80-92 | the first entry of that name, NULL exactly when no entry carries it |
| Nodes.FirstCalledIs | src/kernel/ramfs.cpp:80-92 | lookup in a directory finds an entry if and only if it carries the name and no entry before it does |
| Nodes.Directory.FindByPath | src/kernel/ramfs.cpp:180-209 | the fold of the child lookup over the components closed by a slash |
| Nodes.Directory.FindByPathFrom | src/kernel/ramfs.cpp:211-252 | the fold over all non-empty components, from the root or from the given node |
| Paths.FindChildIff | src/kernel/ramfs.cpp:80-92 | a child is found by its name if and only if no earlier sibling carries it |
| Paths.PathResolvesIff | src/kernel/ramfs.cpp:211-252 | the path built from a node's ancestors leads back to the node if and only if no name on it is shadowed by an earlier sibling |
| Paths.PathRoundTrip | src/kernel/ramfs.cpp:180-252 | the same for both walkers |
| Paths.ClosedPathAgrees | src/kernel/ramfs.cpp:180-252 | on an absolute path closed by a slash the first walker does what the second does without the slash |
| Paths.ClosedIsCut | src/kernel/ramfs.cpp:180-209 | the first walker does on any absolute path what the second does up to the last slash |
| Paths.RelativePaths | src/kernel/ramfs.cpp:180-252 | for a path that begins with no slash the first walker finds nothing; the second starts at the current directory |
| Paths.WalkersAgreeIff | src/kernel/ramfs.cpp:180-252 | the two walkers agree on an absolute path if and only if it ends with a slash or its part before the last slash leads nowhere |
| Paths.SplitOfJoin | src/kernel/ramfs.cpp:254-269 | splitting undoes joining with a slash-free name |
| Paths.JoinOfSplit | src/kernel/ramfs.cpp:254-269 | joining undoes splitting when there is a slash |
| Paths.CreationParent | src/kernel/ramfs.cpp:271-298 | where a new entry goes: one directory too high, and nowhere directly under the root |
| FsSteps.CreationPlace | src/kernel/ramfs.cpp:271-298 | both creations by path put g/d/name where g/ leads, and an entry directly under the root nowhere |
| FsSteps.MadeMeans | src/kernel/ramfs.cpp:40-51 | a node that was made is the last entry of its directory and points back at it, unless that held 32 entries; every other directory and file is as it was |
| FsSteps.OutcomeMeans | src/kernel/ramfs.cpp:139-155 | a write fails with nothing changed, or every byte of the data stands at its place, all other bytes of the file and all other files are as they were |
| RamFs.RamFs.Init | src/kernel/ramfs.cpp:94-106 | a valid file system with only the root "/", empty, with no descriptor used and the exact block list; a table for the root exactly when there is a block for it; NULL exactly when no block for a node can be had |
| RamFs.RamFs.CreateNode | src/kernel/ramfs.cpp:12-38 | a new loose node under the cut name, on blocks of its own; every other node holds what it held; NULL exactly when no block can be had, with nothing changed |
| RamFs.RamFs.SplitPath | src/kernel/ramfs.cpp:254-269 | the search for the last slash computes the split |
| RamFs.RamFs.AddDirectory | src/kernel/shell.cpp:97-101 | a directory in a given directory: exact new state, NULL exactly when no block for a node can be had, stuck exactly when a directory that is not full has no table |
| RamFs.RamFs.AddFile | src/kernel/shell.cpp:80-87 | a file of 256 zero bytes likewise, and stuck too when there is no block for the bytes |
| RamFs.RamFs.AddEmptyFile | src/kernel/ramfs.cpp:293-297 | an empty file likewise, on a block of 1 KiB if that can be had, and stuck too when there is no block for the node |
| RamFs.RamFs.Mkdir | src/kernel/ramfs.cpp:271-283 | an empty directory under the part of the path behind the last slash, as last entry of the directory the part before it leads to; nothing is made exactly when that leads to no directory or no block for a node can be had; NULL is followed exactly in the wedged cases; the new state is exact, block list included |
| RamFs.RamFs.Touch | src/kernel/ramfs.cpp:284-298 | the same for an empty file with a block of 1024 bytes |
| RamFs.RamFs.WriteFile | src/kernel/ramfs.cpp:132-155 | fails exactly when the file must grow and no block is big enough, changing nothing; else the bytes stand at the offset, the rest of the file stays, it moves exactly when its block is too small, and no other block in use changes |
| RamFs.RamFs.Write | src/kernel/ramfs.cpp:132-155 | the same on the whole file system: byte by byte what the file holds, structure, descriptors and the contents of every other node stay, and the block list is the one the growth leaves |
| RamFs.RamFs.Read | src/kernel/ramfs.cpp:113-130 | the bytes of the file from the offset, cut at its end, and -1 exactly for no file or an offset past the end |
| RamFs.CutIsRightIff | src/kernel/ramfs.cpp:113-130 | the copy stays inside the file if and only if offset plus size does not wrap |
| RamFs.RamFs.OwnBlocks | src/kernel/ramfs.cpp:132-155 | contents of different files lie in separate stretches of heap memory |
| RamFs.RamFs.RemoveChild | src/kernel/ramfs.cpp:53-78 | removal changes the structure only: every node, removed or not, keeps its contents |
| RamFs.RamFs.Open | src/kernel/ramfs.cpp:157-170 | the lowest free descriptor refers to the node at offset 0, or -1 exactly when all are taken |
| RamFs.RamFs.Close | src/kernel/ramfs.cpp:172-178 | frees an open descriptor and changes no other |
| RamFs.RamFs.SysOpen | src/kernel/syscalls.cpp:4-8 | -1 exactly when the path leads nowhere or no descriptor is free, else the lowest free one, which then refers to that node at offset 0 while all others stay |
| RamFs.RamFs.SysRead | src/kernel/syscalls.cpp:10-13 | the front of the file, every time: no call moves an offset |
| RamFs.RamFs.SysWrite | src/kernel/syscalls.cpp:15-18 | writes at the front of the file, fails exactly when closed, a directory or out of room |
| RamFs.RamFs.ReadBack | src/kernel/syscalls.cpp:10-18 | a write through a descriptor fails exactly when that is closed, of a directory or refused memory; else what was written is what the descriptor reads next |
| RamFs.RamFs.SysClose | src/kernel/syscalls.cpp:20-22 | the descriptor is closed and keeps its node, every other one stays |
| FsBudget.StepSpare | src/kernel/ramfs.cpp:12-298 | no operation takes more from the end of the heap than its cost |
| FsBudget.WriteSpare | src/kernel/ramfs.cpp:141-151 | a write that the end of the heap can serve is not refused |
| FsBudget.Boot | src/kernel/kernel.cpp:54-58 | on a fresh heap the file system always comes up, with a table for the root |
| FsRuns.RunsDoNotInterfere | src/kernel/ramfs.cpp:12-178 | in every run of creations, writes by path and by descriptor, opens, closes and removals a node holds what it held after the last write addressed to it |
| FsRuns.LastWriteStands | src/kernel/ramfs.cpp:132-155 | at the end of a run the bytes of the last write to a file stand there, unless exactly that write was refused for want of memory, when the file is as before it |
| FsRuns.AddressedWriteStands | src/kernel/ramfs.cpp:132-155 | the same byte by byte for a write by path at any offset and for one through a descriptor at the front |
| FsRuns.DescriptorOutlives | src/kernel/syscalls.cpp:4-22 | a descriptor reaches its file until it is closed, also when the file is removed or shadowed meanwhile |
| FsRuns.RoomyRunsGoOn | src/kernel/ramfs.cpp:12-51 | while node allocations succeed every directory keeps its table and no operation goes through a NULL pointer |
| FsRuns.Apply | src/kernel/ramfs.cpp:12-298 | one operation on the real file system is its step, or is stuck, exactly in the wedged cases |
| FsRuns.Run | src/kernel/ramfs.cpp:12-298 | every run on the real file system is such a trace, stops early only at a wedged operation, so never while node allocations succeed nor within the budget of its start, and leaves a valid file system: each file in use has a live block of its own that holds its size |
| FsRuns.BudgetedRunsGoOn | src/kernel/ramfs.cpp:12-298 | decided by the start of a run: while its operations cost no more than the free block at the end of the heap holds, none goes through a NULL pointer and no write is refused |
| FsRuns.BudgetedWriteStands | src/kernel/ramfs.cpp:132-155 | within the budget the bytes of the last write to a file stand at the end of the run |
| FsRuns.BootAndRun | src/kernel/kernel.cpp:54-58 | from the initialisation of heap and file system on, every run that costs at most 1 KiB less than the heap goes through to its end |
| ShellCommands.Shell.CmdCd | src/kernel/shell.cpp:34-56 | nowhere without an argument, to the parent for `..`, else to the first entry of that name if that is a directory, and nowhere otherwise; the current directory stays a directory reachable from the root |
| ShellCommands.CdTargetIs | src/kernel/shell.cpp:50-55 | the prescribed target in terms of the entries: the first one of that name decides |
| ShellCommands.CdAllIff | src/kernel/shell.cpp:34-56 | `cd` along the names from the root down to a directory leads to it if and only if no name on the way is carried by an earlier entry |
| ShellCommands.Shell.CdNamed | src/kernel/shell.cpp:34-56 | the same for the commands themselves |
| ShellCommands.Shell.CmdTouch | src/kernel/shell.cpp:73-88 | a file of 256 zero bytes under the argument, cut after 63 characters, as last entry of the current directory, with the exact new state; nothing exactly without an argument or a block for a node; stuck exactly in the wedged cases |
| ShellCommands.Shell.CmdMkdir | src/kernel/shell.cpp:90-102 | an empty directory likewise |
| ShellCommands.Shell.Remove | src/kernel/shell.cpp:109-139 | the first entry of that name goes if it is of the right kind, a file for `rm` and a directory for `rmdir`, else nothing does; the current directory stays reachable |
| ShellCommands.VictimIs | src/kernel/shell.cpp:116-138 | the prescribed victim in terms of the entries: the first one of that name decides |
| ShellCommands.RemovedKeepsParent | src/kernel/shell.cpp:109-139 | removing a child leaves the directory itself reachable |
| ShellCommands.MadeIsFoundIff | src/kernel/shell.cpp:34-102 | a directory just made is found under the argument if and only if the argument is shorter than 64 characters and no earlier entry carries it |
| ShellCommands.Shell.CdUp | src/kernel/shell.cpp:41-48 | `cd ..` repeated as often as the current directory is deep leads to the root, and no fewer times do |
| ShellCommands.Shell.Session | src/kernel/shell.cpp:34-139 | every session is a trace of the commands' exact meanings, stops early only at a command that goes through a NULL pointer, so never while node allocations succeed nor when the end of the heap affords as many commands, and throughout the nodes form a tree and the current directory is reachable from the root |
| ShellCommands.RoomySessionsGoOn | src/kernel/shell.cpp:73-102 | while node allocations succeed no command goes through a NULL pointer |
| ShellCommands.BudgetedSessionsGoOn | src/kernel/shell.cpp:34-139 | a session that the end of the heap affords at its start goes through no NULL pointer |
| ShellCommands.BootSession | src/kernel/kernel.cpp:54-58 | from the initialisation of heap and file system on, every session of up to 21000 commands goes through to its end |
| ShellCommands.SessionKeepsContents | src/kernel/shell.cpp:34-139 | no session changes the contents of a node that was there before, or a descriptor |
| ScreenLog.PutKeepsHistory | src/kernel/vga.cpp:61-84 | a character grows the log by at most one row, at its end, and changes nothing above the screen |
| ScreenLog.NewlineMoves | src/kernel/vga.cpp:41-48 | a newline moves to the least row start behind the old position, also from the start of a row; what was there stays, and a row that is new is blank |
| ScreenLog.ClearedBlanks | src/kernel/vga.cpp:105-113 | clearing leaves the rows above the screen, a blank screen in the current colour, and the position at its start |
| ScreenLog.HistoryIsFinal | src/kernel/vga.cpp:41-84 | rows above the screen never change again, whatever is printed |
| ScreenLog.RunsKeepHistory | src/kernel/vga.cpp:41-113 | the same in every run that mixes printing, colour changes and clearing |
| ScreenLog.VisibleTextStands | src/kernel/vga.cpp:79-83 | text without control characters stands behind what was there, across wraps and scrolls |
| Console.Terminal.Initialize | src/kernel/vga.cpp:14-25 | the screen is the window on an empty log |
| Console.Terminal.Scroll | src/kernel/vga.cpp:50-59 | the screen moves up by one row and a blank row follows |
| Console.Terminal.NewLine | src/kernel/vga.cpp:41-48 | column 0 one row further down with the screen unchanged, or in the last row with the screen moved up by one row and a blank row behind; the log agrees, and so do the cursor bytes |
| Console.Terminal.PutChar | src/kernel/vga.cpp:61-84 | row, column and every cell: a backspace steps back over row ends and blanks the cell reached, a newline starts the next row, any other character is put and wraps; the screen is the window on the log, and the cursor bytes sent are row * 80 + column |
| Console.Terminal.WriteString | src/kernel/vga.cpp:94-98 | the same for whole strings |
| Console.Terminal.Run | src/kernel/vga.cpp:61-113 | the screen is the window on the log after every run of printing, colour changes and clearing |
| Console.Terminal.UpdateCursor | src/kernel/vga.cpp:32-39 | the two bytes spell the position, which is at most 1999 |
| Console.Terminal.Clear | src/kernel/vga.cpp:105-113 | a blank screen and position 0; the hardware cursor is right afterwards if and only if it stood at the top left before |
| LineEditor.UntypableCharacters | src/kernel/shell.cpp:185-208 | `7`, `9` and `=` have keys, and no event types them |
| LineEditor.TypableIff | src/kernel/shell.cpp:185-232 | a key with a character types it if and only if its scancode is none of 8, 10 and 13 |
| LineEditor.KeyboardLayout | src/kernel/keyboard.cpp:14-73 | which keys have characters, and which |
| LineEditor.CaseIff | src/kernel/keyboard.cpp:75-98 | shift and caps lock, alone or together, raise letters and nothing else |
| LineEditor.TypingAppends | src/kernel/shell.cpp:220-232 | keys that type append their characters, up to 255, and hand nothing over |
| LineEditor.TypedLineIsHandedOver | src/kernel/shell.cpp:182-233 | a line typed and entered is handed over exactly as typed, and the buffer is empty again |
| LineEditor.BackspaceUndoesTyping | src/kernel/shell.cpp:186-232 | the backspace key undoes the last key that typed |
| LineEditor.EraseSpells | src/kernel/shell.cpp:186-195 | printing backspace, space, backspace rubs out exactly the last character of the line, across row ends |
| LineEditor.TypeSpells | src/kernel/shell.cpp:222-232 | printing an accepted character extends the line on screen by it |
| LineEditor.PromptStands | src/kernel/shell.cpp:202-207 | whatever was printed before, the prompt stands right before the cursor |
| LineEditor.InputLine.HandleKey | src/kernel/shell.cpp:182-233 | for every event and by its fields: scancodes 8 and 127, and the backspace key unless the event commits, take the last character away; the enter key and scancodes 10 and 13 hand the line over, empty the buffer and print newline, output and prompt; any other key types its character if it has one and there is room; the log spells prompt and line up to the cursor |
| LineEditor.InputLine.Session | src/kernel/shell.cpp:182-233 | for every sequence of key events the buffer is the edited line, what is printed is the echo of the events, the log spells the line behind a prompt, and the lines handed over are exactly the edited ones |
| Tokenizing.TokensAreRuns | libc/string/string.cpp:146-170 | tokens are the texts of the runs, left to right |
| Tokenizing.RunsAreMaximal | libc/string/string.cpp:146-170 | the runs listed are exactly the maximal delimiter-free ones |
| CString.Tokenizer.Next | libc/string/string.cpp:131-171 | a call returns where the first token left begins, cut off in place, or NULL when none is left, and remembers where to go on |
| CString.Tokenizer.All | libc/string/string.cpp:131-171 | calling until NULL returns the address of every maximal run of the original string in order, with its text, and the only bytes overwritten are the delimiters right behind tokens |
| CString.Tokenizer.Exhausted | libc/string/string.cpp:131-171 | any number of further calls, with whatever delimiters, returns NULL and changes nothing |
| CString.PlacedStep | libc/string/string.cpp:146-168 | the token found by one more call stands where the next run begins |
| CString.ProgressStep | libc/string/string.cpp:131-171 | what one more call keeps: the tokens found stand where they were found |
| StringOps.Compare | libc/string/string.cpp:98-106 | the sign of the result is the lexicographic order, and 0 means equal texts |
| StringOps.FindFirst | libc/string/string.cpp:86-97 | the first occurrence, NULL exactly when there is none |
| StringOps.FindLast | libc/string/string.cpp:50-62 | the last occurrence, NULL exactly when there is none |
| StringOps.Move | libc/string/string.cpp:63-78 | the old bytes of the source arrive, for overlapping ranges in either direction, and nothing else changes |
| StringOps.CopyAtMost | libc/string/string.cpp:13-25 | at most n characters, then NULs up to n; no terminator for a source that is not shorter |
| StringOps.Copy | libc/string/string.cpp:123-129 | the text with its terminator arrives and nothing else changes |
| Printing.ParseOfPrinted | libc/stdio/stdio.cpp:18-45 | parsing the printed text gives the number back, in both bases |
| Printing.NumeralUnique | libc/stdio/stdio.cpp:18-45 | the numeral printed is the only text of digits 0-9 (and A-F in base 16) without leading zeros that reads as the number |
| Printing.PrintedShows | libc/stdio/stdio.cpp:18-45 | what is printed is a minus sign for negative numbers only, then such a numeral |
| Printing.PrintedLength | libc/stdio/stdio.cpp:18-45 | every text fits the buffers |
| Printing.Itoa | libc/stdio/stdio.cpp:18-45 | the buffer holds the printed text: a minus sign for negative numbers only, then digits without leading zeros that read as the number |
| Printing.IntToString | src/utils.cpp:10-31 | the same text as `itoa`, in the same digits, if and only if the number is not 0, which prints as nothing |

## Left out

- Port I/O, interrupt controllers, timer, boot and interrupt stubs, descriptor tables, inline assembly: only the two cursor bytes are kept.
- `printf` formatting, debug and panic messages, `ls`, `cat`, `help`, `uptime` and the command dispatch; commands are executed with their argument already split off.
- Interrupt interleaving and TLB invalidation.
- Reclaiming removed nodes: the code never does, and no property about it is stated.
- The bytes of the heap blocks that hold nodes and child tables: the fields are object fields, and only the blocks themselves are accounted for.
- Paging.Vmm.Run: calls that move a page holding a paging structure are excluded, since mappings are then lost (`Paging.MapTakesEffectIff`).
- Paging.Vmm.Map: what the call touches is mapped to memory; stores by the kernel ignore the writable flag, because write protection is off in supervisor mode.
- Frames.PhysicalMemoryManager.Initialize: the first call only, for a kernel and bitmap that lie inside the memory counted.
- Heap.Heap.Realloc: calls whose copy would leave the block granted are excluded; `HeapRuns.CopyFitsIff` says exactly which.
- RamFs.RamFs.Write: offset plus size stay at most 2^32 - 16, since a bigger file does not fit the block it is granted (`HeapRuns.GrantCoversIff`); the buffer lies outside the heap.
- RamFs.RamFs.WriteFile: the same.
- RamFs.RamFs.Read: requests for which offset plus size wraps with the offset inside a file are excluded, since the copy would leave the file (`RamFs.CutIsRightIff`); the buffer lies outside the heap.
- FsBudget.Boot: the README file that `kernel_main` makes next is not made.
- Paging.MapTakesEffectIff: the directory's own page is mapped to itself; otherwise `Paging.AfterMap` still says what a call does.
- Nodes.Directory.FindByPathFrom: the walker of the source skips a leading slash before its loop; skipping it in the loop, as here, closes an empty component, which has no effect.
- Nodes.Directory.FindByPath: components of 128 characters and more would overrun the buffer of the source, and are excluded.
- Nodes.Directory.AddChild: the child is a node that no directory lists, as with all callers; its names are whole strings here, compared and copied as such, while the loops over characters are proved on bytes in `StringOps`.
- RamFs.RamFs.Mkdir: paths whose parent part or name would overrun the buffers they are split into are excluded.
- RamFs.RamFs.Touch: the same, and likewise for the other path arguments.
- RamFs.RamFs.Open: the node is one of the file system, as the only caller checks for NULL.
- Printing.Itoa: the least 32-bit value, and negative values in base 16, are excluded; the code overflows or indexes before its digit table on them.
- CString.Tokenizer.Next: the delimiter string does not lie in the memory that is cut.
