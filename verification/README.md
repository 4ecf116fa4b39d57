# A verified model of the kernel's memory stack, file layer and small cores

The model follows a 32-bit kernel. Each layer rests on the one below it:

- **Frames**: one bit per physical page in a packed bitmap and a 32-bit counter (`Bitmap`, `Frames`).
- **Paging**: directory and tables as words in physical memory, the abstract address space they
  implement and who owns which frame (`Words`, `Paging`, `Memory`, `Ownership`, `AddressSpace`, `Access`).
- **User heap**: `user_sbrk` and `user_brk` with their 32-bit wrap-around and what they return
  (`UserHeap`, `Break`, `BreakReturns`).
- **Loader**: `elf_validate`, `elf_load`, its rollback and the loaded image read through translation
  (`Loader`, `Image`, `Rollback`), what a load costs, counted before it starts (`Budget`, `Elf`), which pages it leaves alone
  (`Bystanders`), and the file format on its bytes (`ElfBytes`).
- **Whole runs** of start-up, heap growth, loads and break calls (`System`, `Process`, `Isolation`),
  the frames that must never be handed out (`Reserved`), who holds every used frame (`Ledger`), the
  kernel's identity window and the start-up of its heap (`LowMemory`, `Unpaged`), and the same stack as an
  object that updates a bitmap array and memory in place (`Machine`).
- **Kernel heap**: block headers as memory words, tilings of pages, coalescing, pages that `kmalloc`
  breaks, runs of `kmalloc`/`kfree` and of stores into payloads, and the words in physical memory
  (`HeapBlocks`, `HeapTiling`, `HeapFree`, `HeapLists`, `KernelHeap`, `HeapRuns`, `HeapWords`,
  `HeapObject`, `HeapPayloads`, `HeapMemory`), which pages validate (`HeapValidity`) and how `kfree` undoes
  `kmalloc` (`HeapUndo`).
- **All of it together**: runs that mix heap calls, payload stores, loads, break calls, stack pages and
  buffers in one physical memory (`KernelRuns`).
- **File layer**: vnode tree, descriptors, names, contents, directory listing and the argument frame
  of `k_exec` (`Vfs`, `VfsCalls`, `VfsRuns`, `VfsNames`, `Files`, `FileRuns`, `FileSystem`, `Getdents`, `ExecFrame`).
- **Small cores**: calculator, calendar, snake and the file cache (`Calculator`, `CalcRoundTrip`,
  `CalcLaws`, `Calendar`, `Snake`, `SnakeGame`, `FileCache`).
- **Scenarios**: concrete runs from start-up in which a promise fails, and a file that loads
  (`Scenarios`, `HeapScenarios`, `FileScenarios`).

Two forms of every imperative part are kept side by side. A specification function gives the new
state of each call; the theorems are about it. A class or a method with loops does what the source
does, in place, and its postcondition equates it with that function.

## What turned out false, and the exact conditions

- A grow by `user_sbrk` can hand its last free frame to a page and then find none for the page's
  table; `map_page` gives up silently (kernel/kernel.c:691) and the call still succeeds.
  `Break.SbrkExact` and `Break.FailedGrowRestores` say exactly when; `Scenarios.SbrkStrands` reaches
  such a state from start-up.
- The fallback start-up of `pmm_init` marks page 512 of a region that begins at page 256, so it reserves
  3 MB instead of the bitmap at 2 MB, and nothing of the kernel image: pages go out from the image's
  first on, and the 257th is the bitmap itself. `Reserved.ReserveStart` says exactly when a start-up with
  a memory map reserves both; `Reserved.FallbackFails` and `Reserved.FallbackHandsOut` are about the
  fallback. The theorems on whole runs assume that the vital frames are reserved.
- `heap_init` runs before `enable_paging` (kernel/kernel.c:811-815), so what it stores goes to physical
  3 GB and not to the frame it has just mapped. With paging on, the first heap page shows what its frame
  held before: every `kmalloc` returns NULL, for ever, unless that happened to be a heap page
  (`Unpaged.HeapInitMisses`, `Unpaged.HeapDead`). The theorems on the kernel heap hold from a first page
  stored through the page tables on, as it would be with the two calls swapped (`KernelRuns.HeapReady`).
- Page tables, stack pages and file buffers are written through their physical addresses. The identity
  window ends at 16 MB: such a store is right for every frame below (`LowMemory.PhysicalReach`) and faults
  for frames from there up to 0x8048000 (`LowMemory.WindowEnds`).
- The clamp of `pmm_free_blocks` wraps: a count that passes 2^32 also frees the first pages of the region
  (`Frames.FreeBlocksSpec`).
- A load over the heap of an earlier program leaves that heap's pages mapped above the new break:
  `Process.ExecExact`, `Scenarios.SecondExec`. A load that fails has already dropped the mapped pages it
  got to: `Elf.LoaderRollsBack`, `Scenarios.FailedLoadDestroys`.
- Frames are lost for good by a program start over a mapped stack page, by a grow over pages that an
  earlier load left mapped, and when a last frame finds no table: `Ledger.StepStrays` gives the exact
  condition and frame for every call, `Ledger.FrameLedger` the account over whole runs,
  `Scenarios.SecondStack` a run.
- A break whose sum wraps at 2^32 can be accepted and move without mapping anything:
  `Break.SbrkExact`, `Break.BrkExact`, `Scenarios.SbrkWraps`.
- A split of a heap block that is not the last of its page measures the remainder from the page end.
  The page then never validates again, every request whose scan reaches it returns NULL, and no block
  in it can be given back: `HeapTiling.CarveExact`, `KernelHeap.GetWhole`, `HeapRuns.RunWhole`,
  `HeapScenarios.SplitRun`.
- The free counter after `pmm_init` is right exactly when no reserved page was reserved before, and the
  bitmap's own page always is when it lies in the region: `Frames.ReserveExact`, `Scenarios.PhysicalFree`.
- `read` compares offset plus count with the size after 32-bit wrap-around, so a large count inside a
  file is not clamped: `Files.ReadContents`, `FileScenarios.ReadWraps`.
- A write past the end of a file zero-fills the gap unless the buffer kept bytes of longer, earlier
  contents and no new buffer could be had: `Files.WriteContents`, `FileScenarios.ResidueShows`.
- `k_exec` checks that the argument strings fit into the stack page, not that the pointers below them
  do. When 4*(argc+2) more bytes do not fit, it stores them in the page below the stack and jumps:
  `ExecFrame.BuildFrame`, `ExecFrame.LongArgumentSpills`.
- Names are stored with a leading slash that lookup strips, so siblings can share a name:
  `VfsNames.RunNames`, `VfsNames.SlashTwice`. A node made with a leading slash is not found under that
  path again: `VfsNames.CreateFinds`.
- The snake's guard against reversing compares with the last key, not the last move:
  `Snake.TurnedBack` and `Snake.ReversalExact` say exactly which keys get around it.

One suspicion turned out unfounded: a load of overlapping segments records some pages twice, but since
frames are handed out lowest first a page that is loaded again gets its own frame back, so a failed
load never frees a frame that has moved elsewhere (`Rollback.LoadSegsInv`, `Rollback.LoadRollsBack`).

## Model

| member | source | states |
|---|---|---|
| `Bitmap.UnpackSet` | kernel/kernel.c:107-110 | setting a bit of the packed bitmap sets exactly that page's flag, across byte boundaries |
| `Bitmap.UnpackClear` | kernel/kernel.c:112-115 | clearing a bit clears exactly that page's flag |
| `Frames.AllocFails` | kernel/kernel.c:232-241 | `pmm_alloc_page` returns NULL exactly when no bit is clear, then changes nothing; otherwise one clear bit fewer |
| `Frames.AllocSpec` | kernel/kernel.c:232-241 | the frame returned is the lowest free one, becomes used, is the only one to, and is counted; NULL changes nothing |
| `Frames.FreeSpec` | kernel/kernel.c:243-254 | a free clears and counts exactly a set bit of that managed page; double frees and unmanaged addresses change nothing |
| `Frames.FindRun` | kernel/kernel.c:256-283 | the run found is clear and no lower start has a clear run of that length |
| `Frames.BlocksComplete` | kernel/kernel.c:256-283 | with an exact counter, NULL for a nonzero count exactly when no clear run exists; otherwise the lowest run, and exactly its pages become used |
| `Frames.BlocksSpec` | kernel/kernel.c:256-283 | in every state, whatever the counter: NULL exactly for a zero count, more than the counter admits or no run; otherwise the lowest run becomes used and is counted |
| `Frames.FreeBlocksSpec` | kernel/kernel.c:285-304 | exactly which frames are used after `pmm_free_blocks`, wrapped counts included, and that the counter follows |
| `Frames.RunDrift` | kernel/kernel.c:232-304 | every sequence of page and block calls, double frees and clamped ranges included, conserves clear bits minus counter modulo 2^32 |
| `Frames.ReserveExact` | kernel/kernel.c:219-229 | the counter agrees with the bits after start-up if and only if none of the first 2048 pages was reserved before |
| `Frames.FallbackExact` | kernel/kernel.c:123-142 | the fallback start-up state has an exact counter |
| `Paging.SetPteSpec` | kernel/kernel.c:701-702 | writing one table entry changes that page's entry, no other page, no directory entry and no other frame |
| `Paging.InstallSpec` | kernel/kernel.c:689-699 | installing a cleared table in an absent slot changes no page's entry and adds exactly one table |
| `Memory.MapPageSpec` | kernel/kernel.c:684-705 | effect of `map_page` on every page, directory slot, bitmap bit and frame, with and without a new table, and no effect when none can be had |
| `AddressSpace.MapRefines` | kernel/kernel.c:684-705 | `map_page` is one update of the abstract partial map, spending a frame exactly when the slot was absent, or nothing |
| `AddressSpace.UnmapRefines` | kernel/kernel.c:707-718 | `unmap_page` removes one page from the abstract map and nothing else |
| `AddressSpace.TranslateRefines` | kernel/kernel.c:731-741 | `get_physical_address` is a lookup in the abstract map |
| `AddressSpace.MapAnswers` | kernel/kernel.c:684-741 | after `map_page` the page answers frame plus offset and every other address as before |
| `AddressSpace.RunRefines` | kernel/kernel.c:672-741 | over every run of map, unmap, allocate and free (of non-table frames), the tables answer every address as the abstract run does |
| `Ownership.UnmapSpec` | kernel/kernel.c:707-718 | which page, entry, table and frame contents an unmap leaves alone |
| `Ownership.MapInv` | kernel/kernel.c:684-705 | mapping an unowned used frame with the right user bit keeps frame ownership |
| `Ownership.UnmapInv` | kernel/kernel.c:707-718 | unmapping keeps ownership and leaves the frame without an owner |
| `Ownership.FreeInv` | kernel/kernel.c:243-254 | freeing a frame nobody owns keeps ownership |
| `Ownership.AllocInv` | kernel/kernel.c:232-241 | an allocated frame has no owner, and taking it keeps ownership |
| `Access.WriteSpec` | kernel/elf.c:279-283 | a copy to mapped user addresses changes exactly those bytes as seen through every mapping, and no translation |
| `UserHeap.GrowExact` | kernel/elf.c:45-62 | the grow loop maps every page at its exact cost in frames, or undoes all of it, or strands one frame: each outcome with the condition under which it occurs |
| `UserHeap.ReleaseRestores` | kernel/elf.c:51-58 | releasing pages mapped since an earlier state gives back exactly their frames |
| `Break.SbrkInv` | kernel/elf.c:32-77 | any increment, wrapped or not, keeps frame ownership and the heap bounds |
| `Break.SbrkExact` | kernel/elf.c:32-77 | the mapped set stays exactly the pages below the break, all user-writable, if and only if the call is refused, is zero, or neither wraps nor strands its last page |
| `Break.WrapBreaks` | kernel/elf.c:37-41 | every accepted wrapping increment breaks the mapped set |
| `Break.BrkExact` | kernel/elf.c:79-94 | the same if-and-only-if for `user_brk`, whose distance passes through a signed cast |
| `Break.FailedGrowRestores` | kernel/elf.c:45-62 | when a grow fails; a failed grow restores break and mappings, and restores data frames if and only if no page stranded one |
| `Break.GrowShrinkRoundTrip` | kernel/elf.c:32-77 | every grow that succeeds, shrunk by the same amount, restores break and page map, and data frames if and only if it stranded none |
| `Break.ReleaseSpec` | kernel/elf.c:63-73 | shrinking unmaps exactly the given pages and frees exactly their frames |
| `BreakReturns.GrowFails` | kernel/elf.c:45-62 | the grow loop fails, over any pages, mapped or not, exactly when fewer frames are free than pages and missing tables take and it is not only the last table that is missing |
| `BreakReturns.SbrkReturns` | kernel/elf.c:32-77 | -1 exactly when the heap is not ready, a nonzero increment lands outside base..0xBFFFF000 modulo 2^32, or a grow runs out of frames; a refusal changes nothing; otherwise the old break, and the new one |
| `BreakReturns.BrkReturns` | kernel/elf.c:79-94 | 0 or -1, and -1 exactly for a heap not ready, a target out of range, or a grow by less than 2 GB that runs out of frames |
| `Loader.LoadPageDone` | kernel/elf.c:245-277 | a page of a segment ends mapped with its flags to a zeroed frame, and every other mapped byte is as before |
| `Image.LoadHolds` | kernel/elf.c:213-292 | for any segments, overlapping or not, every covered page shows the image of its last segment with that segment's write bit |
| `Image.LoadShows` | kernel/elf.c:213-292 | what a successful load shows at every address of a covered page, and that it is user-accessible |
| `Rollback.LoadSegsInv` | kernel/elf.c:213-292 | any load, overlapping or not, over mapped pages or not, keeps frame ownership on success and on every failure exit |
| `Rollback.LoadRollsBack` | kernel/elf.c:109-120 | compared with the state without the pages it got to, a failed load leaves nothing but new page tables, whatever the segments; a successful one accounts for every frame |
| `Rollback.LowStep` | kernel/elf.c:245-274 | a page that is loaded again gets its own frame back |
| `Elf.Validate` | kernel/elf.c:122-211 | 0 exactly for files that pass every header and segment check, otherwise -1 |
| `ElfBytes.AcceptedExact` | kernel/elf.c:122-211 | on the bytes of the file, in unbounded integers: accepted exactly with the right magic, type, machine, version, table and entry, and every loadable segment inside file and user space with congruent alignment |
| `ElfBytes.PhdrBytes` | kernel/elf.c:223-226 | every field of a program header by its place in the file |
| `ElfBytes.EntryIs` | kernel/elf.c:291-291 | a successful load returns the four bytes at offset 24, plus 0x08048000 for a shared object |
| `ElfBytes.BreakIs` | kernel/elf.c:285-290 | the break starts at its base, the lowest page boundary at or above the end of every segment that takes a page |
| `Bystanders.LoaderSpares` | kernel/elf.c:213-292 | whatever its outcome, a load keeps entry and bytes of every mapped page that no segment covers |
| `Elf.RangeExact` | kernel/elf.c:189-202 | the wrapping 32-bit range checks accept exactly the ranges inside user space in unbounded integers |
| `Elf.LoaderCorrect` | kernel/elf.c:213-292 | after a successful load, memory read through the page tables holds file bytes then zeros for every PT_LOAD header wherever no later header takes the page over, user-accessible, writable as flagged |
| `Elf.LoaderRange` | kernel/elf.c:122-292 | accepted segments lie in user space, and those that take a page lie below the heap base that a successful load sets; a nonzero entry means success |
| `Elf.LoaderRollsBack` | kernel/elf.c:236-288 | a load that the free frames, the record table or the checks rule out leaves the heap alone, unmaps the pages up to the first one the free frames do not cover and frees exactly their frames, new tables excepted; it restores the page map if and only if none of them was mapped |
| `Elf.LoaderSucceeds` | kernel/elf.c:236-288 | a load succeeds if and only if the file is accepted, its segments have at most 2048 pages together, and as many frames are free as covered pages are unmapped and directory slots absent |
| `Budget.LoadSegsBudget` | kernel/elf.c:236-277 | the nested loops at any point: they finish if and only if records and frames last, whatever was loaded before |
| `System.BootInv` | kernel/kernel.c:633-670 | `paging_init` establishes frame ownership with nothing mapped in user space or kernel heap |
| `LowMemory.BootWindow` | kernel/kernel.c:644-661 | `paging_init` maps the first 16 MB onto themselves, writable and for ring 0 only |
| `LowMemory.KernelWindow` | kernel/kernel.c:644-661 | and in every run every address there is its own physical address |
| `LowMemory.PhysicalReach` | kernel/kernel.c:672-682 | with managed memory below 16 MB every frame is reached through its physical address in every run |
| `LowMemory.WindowEnds` | kernel/kernel.c:644-661 | no page from 16 MB to user space is ever mapped |
| `LowMemory.BufferZero` | kernel/kernel.c:306-315 | the frames of a file buffer are cleared |
| `LowMemory.StackReady` | kernel/fs.c:172-187 | a program starts with a user-writable stack page of zeros whenever the frames suffice |
| `Unpaged.HeapInitMisses` | kernel/kernel.c:811-815 | after start-up in the order of `kernel_main`, in every run, each word of the first heap page is what its frame held before |
| `Unpaged.HeapDead` | kernel/kernel.c:509-518 | so the page never validates unless the frame already began with the magic number |
| `Unpaged.FirstPage` | kernel/kernel.c:520-534 | the beginning of `kmalloc` ends with NULL exactly for a bad size or a first page that does not validate |
| `Reserved.BootSpares` | kernel/kernel.c:633-670 | `paging_init` leaves every frame out of the allocator's reach unowned and with its bytes |
| `Reserved.RunSpares` | kernel/elf.c:213-292 | every run of heap growth, loads, stack mapping, break calls and buffers keeps frame ownership, and a frame that is used or unmanaged and unowned stays so with every byte |
| `Reserved.ReserveStart` | kernel/kernel.c:185-229 | start-up with a memory map puts bitmap and image out of reach if and only if the marking before has set those of their pages that lie beyond the first 2048 |
| `Reserved.ReserveMeets` | kernel/kernel.c:219-229 | so it does for every region from 1 MB on of at most 128 MB |
| `Reserved.FallbackFails` | kernel/kernel.c:122-142 | the fallback leaves the bitmap's page and the image's first page free |
| `Reserved.FallbackHandsOut` | kernel/kernel.c:122-142 | the k-th page it hands out is 1 MB plus k pages: the image, and then the bitmap |
| `Reserved.FrameOwnership` | kernel/kernel.c:446-459 | after a start-up that reserved the vital frames, in every run distinct mapped pages have distinct used frames, none a table, the directory or vital, no kernel-heap page is user-accessible, and the vital frames keep every byte |
| `Ledger.GrowLoses` | kernel/elf.c:45-62 | exactly the frames a grow loses, over any pages and on every exit: those of the mapped pages it gets to, and a last frame without a table |
| `Ledger.ExecIdle` | kernel/elf.c:213-292 | a load, failed or not, loses no frame |
| `Ledger.StepStrays` | kernel/fs.c:172-187 | exactly which frames each call leaves used without an owner: those it loses and those of a file buffer |
| `Ledger.FrameLedger` | kernel/kernel.c:232-304 | in every run from start-up a frame is used if and only if start-up had marked it, it is a table, backs a mapped page, was handed out as a buffer or was lost; the unowned kinds never overlap the owned ones |
| `Ledger.StackStrays` | kernel/fs.c:172-187 | a program start over a mapped stack page loses that page's frame for every run to come |
| `Ledger.StepSlots` | kernel/kernel.c:684-705 | no call ever drops or moves a page table |
| `Process.ExecExact` | kernel/elf.c:213-292 | a load keeps the mapped heap exact if and only if, by tests on the state before it: when it can succeed, nothing is mapped above its segments; when it cannot, it gets to no heap page |
| `Process.BreakRun` | kernel/elf.c:32-94 | over every run of guarded calls, loads included, the mapped heap pages are exactly those below the break |
| `Process.ProcessHeap` | kernel/elf.c:23-94 | the same from start-up on |
| `Isolation.BootNextFree` | kernel/kernel.c:633-670 | a start-up that reserved the vital frames leaves the state that `Isolation.HeapIsolated` and `HeapMemory.RunMirrors` start from |
| `Isolation.HeapIsolated` | kernel/kernel.c:446-459 | with the vital frames reserved, which they stay, over every run a kernel-heap page once mapped keeps its frame and every byte of it, through translation, whatever is loaded, grown, shrunk or allocated |
| `Machine.Machine.AllocPage` | kernel/kernel.c:232-241 | the scan over the packed bitmap refines the allocator function |
| `Machine.Machine.FreePage` | kernel/kernel.c:243-254 | likewise for a free by address |
| `Machine.Machine.AllocRun` | kernel/kernel.c:256-283 | the one-pass run counter finds the lowest run |
| `Machine.Machine.FreeRun` | kernel/kernel.c:285-304 | clamping and per-page frees refine the block free |
| `Machine.Machine.MapPage` | kernel/kernel.c:684-705 | the stores to directory and table refine the specification of `map_page` |
| `Machine.Machine.UnmapPage` | kernel/kernel.c:707-718 | likewise for `unmap_page` |
| `Machine.Machine.PhysicalAddress` | kernel/kernel.c:731-741 | the two-level walk computes the translation |
| `Machine.Machine.SbrkCall` | kernel/elf.c:32-77 | the grow, rollback and shrink loops refine the break function, state and return value |
| `Machine.Machine.BrkCall` | kernel/elf.c:79-94 | likewise for `user_brk` |
| `Machine.Machine.CleanUp` | kernel/elf.c:109-120 | the cleanup loop refines the rollback function |
| `Machine.Machine.Exec` | kernel/elf.c:213-292 | the nested loader loops refine the load function: memory, heap and entry point |
| `HeapBlocks.Climbs` | kernel/kernel.c:368-419 | on arbitrary page contents, each accepted link climbs by at least 32 bytes inside the page |
| `HeapBlocks.ValidatePage` | kernel/kernel.c:421-444 | the walk halts on arbitrary contents and answers whether the chain validates |
| `HeapValidity.ValidExact` | kernel/kernel.c:368-444 | a heap page validates if and only if it has the magic number and its words are a list of abutting, back-linked, aligned blocks inside it |
| `HeapTiling.TiledValid` | kernel/kernel.c:421-444 | a page whose words store a tiling validates |
| `HeapTiling.TiledFind` | kernel/kernel.c:491-507 | on a tiled page the block walk returns the first fitting block |
| `HeapTiling.CarveExact` | kernel/kernel.c:536-570 | after `kmalloc` has carved a block the page is tiled and validates if and only if the block was the last or was not split |
| `HeapTiling.SplitBreaks` | kernel/kernel.c:548-567 | every split of another block leaves a page that no longer validates |
| `HeapFree.KfreeTiled` | kernel/kernel.c:581-630 | `kfree` of any live block of a tiled page leaves it tiled, the block joined with its free neighbours |
| `HeapLists.FreedTiles` | kernel/kernel.c:613-629 | joining keeps an exact tiling from any tiling |
| `HeapLists.TotalConserved` | kernel/kernel.c:446-489 | every tiling accounts for all 4072 bytes after the page header |
| `HeapLists.FreedCoalesced` | kernel/kernel.c:613-629 | `kfree` leaves no two adjacent free blocks |
| `HeapLists.FreedLive` | kernel/kernel.c:581-630 | `kfree` removes exactly one block from the live ones |
| `KernelHeap.MallocLive` | kernel/kernel.c:520-579 | in every state a successful `kmalloc` adds exactly one live block, at the returned 8-aligned payload and at least as large as asked; a failed one adds none |
| `KernelHeap.GetWhole` | kernel/kernel.c:520-579 | a request keeps every page validating if and only if its block is the last of its page or is not split |
| `KernelHeap.LiveDisjoint` | kernel/kernel.c:520-579 | in every state, broken pages or not, live blocks never overlap, payloads are 8-aligned and inside the heap |
| `KernelHeap.SmallRequest` | kernel/kernel.c:520-579 | aligned requests up to 4048 bytes add at most one page and fail exactly when the scan meets a broken page first, or finds no fit and no page can be added |
| `KernelHeap.LargeRequest` | kernel/kernel.c:520-579 | larger requests end with NULL, after consuming the remaining pages unless a page is broken |
| `KernelHeap.NeverFits` | kernel/kernel.c:491-507 | no page ever holds a block for a request over 4048 bytes |
| `HeapRuns.HeapRun` | kernel/kernel.c:520-630 | in every run each page that still validates is tiled, conserves its bytes and is coalesced |
| `HeapRuns.RunWhole` | kernel/kernel.c:520-630 | every page validates throughout a run if and only if every request in it is safe |
| `HeapRuns.BrokenStops` | kernel/kernel.c:530-534 | with a broken page the heap never grows, and a scan that reaches the page returns NULL |
| `HeapRuns.BrokenForEver` | kernel/kernel.c:520-630 | a broken page stays broken, its blocks as they were, over every run |
| `HeapRuns.DisciplinedIsSafe` | kernel/kernel.c:520-630 | runs without `kfree`, or freeing only the last live block of a page, never meet a breaking split |
| `HeapWords.CarveBreaks` | kernel/kernel.c:548-567 | over words, a split of another block leaves a severed chain of blocks and headers that name their page, and touches no other page |
| `HeapWords.BrokenInvalid` | kernel/kernel.c:421-444 | a page with a severed chain does not validate |
| `HeapWords.CarveSpares` | kernel/kernel.c:548-567 | it changes no word of any live payload |
| `HeapWords.KfreeBroken` | kernel/kernel.c:589-600 | `kfree` of any block handed out in such a page changes nothing |
| `HeapObject.KHeap.AllocPage` | kernel/kernel.c:446-489 | the words of a new page extend the stored list by one fresh tiling; `KernelRuns.AddInv` does the same with the frame allocator and `map_page` |
| `HeapObject.KHeap.Search` | kernel/kernel.c:528-573 | the nested scan ends at the first page that does not validate or has a fitting block |
| `HeapObject.KHeap.Kmalloc` | kernel/kernel.c:520-579 | in every state the loop halts and, on memory words, does exactly what the list of pages prescribes; zero and overflowing sizes give NULL |
| `HeapObject.KHeap.Release` | kernel/kernel.c:581-630 | on any pointer the words `kfree` leaves; a refused pointer changes nothing; a payload frees exactly its block, unless it is free already or its page is broken |
| `HeapPayloads.StoreKeeps` | kernel/kernel.c:520-579 | a store inside a live payload keeps every page of the heap as stored, broken pages included |
| `HeapPayloads.GetSpares` | kernel/kernel.c:520-579 | `kmalloc`, with all the pages it adds, changes no word of a live payload |
| `HeapPayloads.GiveSpares` | kernel/kernel.c:581-630 | nor does `kfree` |
| `HeapPayloads.PayloadRun` | kernel/kernel.c:520-630 | over every run of both and of stores into live payloads the heap stays stored, and a live word changes only when its owner stores to it |
| `HeapUndo.MallocUndone` | kernel/kernel.c:520-630 | freeing what a safe request has just returned restores the heap, but for a page added |
| `HeapUndo.AllotTight` | kernel/kernel.c:548-567 | a request takes exactly its bytes from the last block when 40 more are left, the whole block otherwise |
| `HeapUndo.NewPageWords` | kernel/kernel.c:461-486 | the twelve words of a new page |
| `HeapMemory.HeapInMemory` | kernel/kernel.c:446-630 | word stores of the heap, done through the page tables, leave memory with exactly those words, no translation changed and no other mapped byte |
| `HeapMemory.CarveStores` | kernel/kernel.c:536-570 | what `kmalloc` does to the words is such stores inside the chosen page |
| `HeapMemory.UniteStores` | kernel/kernel.c:613-629 | likewise for `kfree` |
| `HeapMemory.NewPageStores` | kernel/kernel.c:461-486 | likewise for a new page |
| `HeapMemory.RunMirrors` | kernel/kernel.c:446-630 | with the vital frames reserved, over every run of loads, break calls, stack, buffer and heap page allocation every heap word reads the same |
| `KernelRuns.StoredSpec` | kernel/kernel.c:446-630 | storing new heap words through the tables leaves memory with exactly those words, and translation and bytes outside the heap alone |
| `KernelRuns.AddInv` | kernel/kernel.c:446-489 | `heap_alloc_page` on the machine: frame, mapping and words; ownership, vital frames and stored heap survive |
| `KernelRuns.MallocRefines` | kernel/kernel.c:520-579 | `kmalloc` on memory, tables and frame allocator does to the page list what `KernelHeap.Alloc` does with the frames the allocator has to give |
| `KernelRuns.MallocInv` | kernel/kernel.c:520-579 | and keeps ownership, vital frames and the stored heap |
| `KernelRuns.FreeKeepsInv` | kernel/kernel.c:581-630 | so does `kfree` |
| `KernelRuns.StepMachine` | kernel/elf.c:213-292 | so do loads, break calls, stack pages and buffers, which keep every heap word |
| `KernelRuns.KernelRun` | kernel/kernel.c:446-630 | over every interleaving of all these calls and of stores into live payloads, ownership, vital frames and the stored heap survive, and a live word keeps its value in memory unless its owner stores to it |
| `KernelRuns.HeapActsSpareUser` | kernel/kernel.c:520-630 | `kmalloc`, `kfree` and payload stores change no byte of user space and no translation of it |
| `KernelRuns.HeapReady` | kernel/kernel.c:811-814 | start-up with 70 free pages and the vital frames reserved, and one heap page allocated with paging on, meet the hypotheses |
| `ExecFrame.BuildFrame` | kernel/fs.c:194-237 | built exactly when at most 15 strings fit into one page; then crt0 decodes argc, the same strings in order and NULL, nothing overlaps, and the page below the stack is left alone if and only if 4*(argc+2) more bytes fit |
| `ExecFrame.LongArgumentSpills` | kernel/fs.c:229-235 | one argument of 4090 bytes sends the pointers below the stack page |
| `ExecFrame.CopyStrings` | kernel/fs.c:195-218 | which exit the copy loop takes, and where every string lies afterwards |
| `ExecFrame.FrameDecodes` | usr/crt0.asm:8-13 | pointer cells below placed strings decode to the argument list |
| `ExecFrame.StringRoundTrip` | kernel/fs.c:208-215 | a NUL-terminated copy reads back as the same string |
| `VfsRuns.RunTree` | kernel/fs.c:14-130 | in every run parent and child links agree, parents have smaller pool indices, and the current directory is a directory that reaches the root |
| `VfsRuns.DescriptorStable` | kernel/syscall.c:198-283 | until closed a descriptor stays on its vnode; once that is unlinked every read and write through it fails for ever and changes nothing |
| `VfsRuns.UnlinkKills` | kernel/fs.c:100-130 | a successful unlink clears the flags that reads and writes test |
| `VfsRuns.UnlinkedForEver` | kernel/fs.c:100-130 | in every run that unlinks the file under an open descriptor, all later reads and writes through it fail and change nothing |
| `VfsNames.StepNames` | kernel/fs.c:53-98 | a call keeps sibling names distinct if and only if it stores no second child under a stored name |
| `VfsNames.RunNames` | kernel/fs.c:38-130 | sibling names are distinct in every state of a run if and only if every call fits |
| `VfsNames.PlainFits` | kernel/fs.c:38-84 | creating calls whose path has no leading slash always fit |
| `VfsNames.CreateFinds` | kernel/fs.c:38-84 | a new node is found under the path that made it if and only if that path has no leading slash; paths found before answer as before |
| `VfsNames.UnlinkForgets` | kernel/fs.c:100-130 | with distinct sibling names an unlinked path is no longer found |
| `VfsNames.SlashTwice` | kernel/fs.c:45-60 | mkdir "/a" twice succeeds twice and stores two children of one name |
| `VfsCalls.LookupIs` | kernel/fs.c:38-51 | what every path stands for: root, current directory, parent, or a child by name |
| `VfsCalls.ChdirMoves` | kernel/syscall.c:272-283 | chdir moves to exactly what lookup answers if that is a directory, and otherwise changes nothing |
| `VfsCalls.CreateExact` | kernel/fs.c:53-84 | mkdir and touch succeed exactly for a new, nonempty path with fewer than 16 children and 64 nodes |
| `VfsCalls.MkdirEnters` | kernel/fs.c:53-67 | mkdir makes an empty directory that chdir enters under its path and whose ".." leads back |
| `VfsCalls.TouchMakes` | kernel/fs.c:69-84 | touch makes a file of no bytes that chdir refuses |
| `VfsCalls.UnlinkExact` | kernel/fs.c:100-130 | unlink succeeds exactly on files and changes one node and one child list |
| `VfsCalls.CloseFrees` | kernel/syscall.c:198-214 | close succeeds exactly on open descriptors and frees that slot only |
| `VfsCalls.ClosedFails` | kernel/syscall.c:118-214 | reads, writes and a second close then fail |
| `VfsCalls.ReadFails` | kernel/syscall.c:163-196 | read returns -1 exactly for a zero count or without a file |
| `VfsCalls.WriteFails` | kernel/syscall.c:118-161 | write returns -1 exactly for no bytes, without a file or without a buffer |
| `VfsCalls.OpenExact` | kernel/syscall.c:216-261 | when open fails; otherwise the lowest free slot from 3 on, at offset 0 on the node found or made |
| `VfsCalls.InstallExact` | kernel/fs.c:86-98 | when a file can be installed |
| `VfsCalls.InstallReads` | kernel/fs.c:86-98 | an installed file is found under its name and read back |
| `Files.RunFiles` | kernel/syscall.c:118-261 | in every run sizes and offsets of touched files stay at most 63 |
| `Files.WriteContents` | kernel/syscall.c:118-161 | what a write leaves in the file and when the gap before the offset is zeros: if and only if a new buffer was had or no residue lay there |
| `FileRuns.StepRefines` | kernel/syscall.c:118-261 | one call changes the map from live files to bytes as it should if and only if it is no write over residue or without a buffer |
| `FileRuns.RunRefines` | kernel/syscall.c:54-261 | after every clean run the contents are those of the abstract files |
| `FileRuns.AllocatingIsClean` | kernel/syscall.c:54-70 | runs whose writes get their buffer are clean |
| `Files.ReadContents` | kernel/syscall.c:163-196 | a read returns the bytes from the offset on and moves past them if and only if it starts at the end or offset plus count stays below 2^32; otherwise the copy is not clamped |
| `Files.ReadBack` | kernel/syscall.c:163-196 | reads return the bytes from the offset on, in order, under exactly the chunkings in which none wraps |
| `Files.OpenExisting` | kernel/syscall.c:216-261 | a descriptor opened on an existing file takes a free slot at offset 0, empties the file if asked, and changes no other file or descriptor |
| `Files.OpenReadsBack` | kernel/syscall.c:163-261 | a fresh descriptor reads a file back in order under exactly those chunkings |
| `Files.WriteThenRead` | kernel/syscall.c:118-261 | the first min(count, 63) bytes written from the start of a file are what a fresh descriptor reads, under exactly those chunkings |
| `FileSystem.ShiftDown` | kernel/fs.c:116-119 | the shifting loop of unlink removes exactly one element |
| `FileSystem.FileSystem.LookupPath` | kernel/fs.c:38-51 | the scan refines lookup, with the special paths |
| `FileSystem.FileSystem.MakeDirectory` | kernel/fs.c:53-67 | refines mkdir, failures included |
| `FileSystem.FileSystem.MakeFile` | kernel/fs.c:69-84 | refines touch |
| `FileSystem.FileSystem.Remove` | kernel/fs.c:100-130 | refines unlink |
| `FileSystem.FileSystem.ChangeDirectory` | kernel/syscall.c:272-283 | refines chdir |
| `FileSystem.FileSystem.CloseFile` | kernel/syscall.c:198-214 | refines close |
| `FileSystem.FileSystem.AllocateFd` | kernel/syscall.c:33-38 | the lowest free descriptor from 3 on |
| `FileSystem.FileSystem.OpenFile` | kernel/syscall.c:216-261 | refines open with create and truncate |
| `FileSystem.FileSystem.ReadFd` | kernel/syscall.c:163-196 | refines read, the wrapped length test and the overrun included |
| `FileSystem.FileSystem.WriteFd` | kernel/syscall.c:118-161 | refines write, installed files and the overrun included |
| `Getdents.GetDents` | kernel/syscall.c:311-354 | the loop emits the records that fit, in order, and the offset to resume at |
| `Getdents.DecodeRecord` | kernel/syscall.c:339-347 | one record in front of any bytes decodes to its child and decoding goes on after it |
| `Getdents.RecordBytes` | kernel/syscall.c:339-347 | a record byte by byte, 2 for a directory and 1 for a file |
| `Getdents.Listing` | kernel/syscall.c:311-354 | for every sequence of sufficient buffer sizes the buffers, decoded one by one or together, give every child exactly once, in order, then nothing |
| `Calculator.Parser.ParseFactor` | bin/calc/calc.c:21-39 | the parser never passes the terminator and refines the factor function |
| `Calculator.Parser.ParseTerm` | bin/calc/calc.c:41-57 | likewise for terms |
| `Calculator.Parser.ParseExpression` | bin/calc/calc.c:59-75 | likewise for expressions |
| `Calculator.Parser.Run` | bin/calc/calc.c:77-86 | evaluation terminates on every text without passing the terminator |
| `CalcRoundTrip.EvaluatePrinted` | bin/calc/calc.c:15-86 | any precedence-correct text of a tree, with any blanks and redundant parentheses, evaluates to its left-associative value |
| `CalcRoundTrip.PrintMeans` | bin/calc/calc.c:15-86 | printing with minimal parentheses is precedence-correct and means the same tree |
| `CalcRoundTrip.PrintEvaluates` | bin/calc/calc.c:15-86 | every tree, printed and evaluated, gives its value |
| `CalcLaws.Operators` | bin/calc/calc.c:41-75 | which characters are operators of which level |
| `CalcLaws.ApplyAnswers` | bin/calc/calc.c:41-75 | sum, difference and product modulo 2^32 in signed range, truncating quotient, and the left operand on division by zero |
| `CalcLaws.EvaluateBinary` | bin/calc/calc.c:41-86 | the text of two operands and an operator evaluates to that answer for the values of their texts |
| `CalcLaws.EvaluateParen` | bin/calc/calc.c:21-39 | parentheses change nothing |
| `CalcLaws.EvaluateNumeral` | bin/calc/calc.c:32-38 | a numeral is its decimal value modulo 2^32 |
| `CalcLaws.EvaluateJunk` | bin/calc/calc.c:77-86 | a complete expression followed by anything else evaluates to 0 |
| `CalcLaws.RingEvaluates` | bin/calc/calc.c:15-86 | every tree of sums, differences and products evaluates to its mathematical value modulo 2^32, and exactly when that is in range |
| `Calendar.ToSeconds` | kernel/syscall.c:378-401 | the two loops compute the day count and the encoded seconds |
| `Calendar.Localtime` | kernel/sys/time/localtime_r.c:28-59 | the year and month loops compute the decoded fields |
| `Calendar.EncodeDecode` | kernel/sys/time/localtime_r.c:28-59 | for every time from the Epoch on, the fields are a valid date and re-encode to that time |
| `Calendar.DecodeEncode` | kernel/syscall.c:378-401 | for every valid date from 1970 on, encoding and decoding gives back every field |
| `Calendar.YearStartClosed` | kernel/syscall.c:385-389 | the looped day count equals the closed formula for every year, before 1970 too |
| `Calendar.MonthLenIs` | kernel/syscall.c:392-398 | the length of every month without the table |
| `Calendar.MonthStartClosed` | kernel/sys/time/localtime_r.c:24-55 | the looped month count equals the closed formula |
| `Calendar.LeapIs` | kernel/sys/time/localtime_r.c:22-22 | the Gregorian rule |
| `Calendar.ValidDays` | kernel/sys/time/localtime_r.c:24-55 | the days a valid date can have in its month |
| `Calendar.EncodeIsPosix` | kernel/syscall.c:378-401 | the encoding is Seconds Since the Epoch of section 4.16 of POSIX.1-2017 XBD, with the day of the year in closed form |
| `Snake.PlayOk` | bin/snake/snake.c:278-363 | every key sequence keeps the game invariant and pays ten points per food |
| `Snake.SnakeInvariant` | bin/snake/snake.c:250-363 | for every random stream and key sequence: body distinct, adjacent and inside the border, three distinct foods off the body, length min(4 + foods eaten, 255) |
| `Snake.TurnNeverReverses` | bin/snake/snake.c:284-296 | one key never reverses the direction |
| `Snake.TurnedBack` | bin/snake/snake.c:284-296 | exactly which three keys between two moves reverse the heading |
| `Snake.PlayFacing` | bin/snake/snake.c:278-363 | right after every move of every game the snake faces away from its second cell |
| `Snake.ReversalExact` | bin/snake/snake.c:278-330 | in every game exactly those keys drive the head onto the second cell, and the game ends there |
| `Snake.TwoTurnsReverse` | bin/snake/snake.c:284-330 | such keys exist from the start |
| `Snake.KeyPressed` | bin/snake/snake.c:279-304 | which keys end the game, which heading each other key gives, and that two frames pass before a move |
| `Snake.MoveEnds` | bin/snake/snake.c:306-360 | a move ends the game exactly outside columns 1-78 or rows 1-23 or on the body; otherwise head, length, foods and score |
| `Snake.FoodRange` | bin/snake/snake.c:98-112 | in every game food lies in columns 2-77 and rows 2-22 |
| `SnakeGame.Board.PlaceFood` | bin/snake/snake.c:98-112 | the drawing loop refines food placement over the random stream |
| `SnakeGame.Board.Shift` | bin/snake/snake.c:335-341 | the downward loop moves every cell to its successor's slot and the head to the front |
| `SnakeGame.Board.Pass` | bin/snake/snake.c:278-363 | one pass of the game loop on the coordinate arrays refines the step |
| `SnakeGame.Board.PlayAll` | bin/snake/snake.c:250-363 | a whole game on the arrays ends in a state of the invariant with ten points per food |
| `FileCache.CacheAgrees` | kernel/file_cache.c:24-93 | in every run cached names are distinct, and a name is cached exactly when its latest accepted put is neither cancelled nor displaced, with that put's bytes and its use count modulo 2^32 |
| `FileCache.HitReturnsLatest` | kernel/file_cache.c:24-35 | what a get returns after any history |
| `FileCache.PutDisplacesLeast` | kernel/file_cache.c:59-75 | a new name in a full cache displaces only the lowest-index entry with fewest uses; every other name keeps its bytes |
| `FileCache.CountersAccount` | kernel/file_cache.c:24-35 | hits count the queries since the last flush that the history answers, misses the others, modulo 2^32 |
| `FileCache.RunBounds` | kernel/file_cache.c:37-76 | in every run at most 16 files of at most 4096 bytes |
| `FileCache.PutIsFound` | kernel/file_cache.c:37-76 | right after a put of at most 4096 bytes a get returns them; a longer one changes nothing |
| `FileCache.FileCache.Fetch` | kernel/file_cache.c:24-35 | the scan refines get |
| `FileCache.FileCache.LeastUsed` | kernel/file_cache.c:61-69 | the victim search finds the lowest index of minimum hits |
| `FileCache.FileCache.Save` | kernel/file_cache.c:37-76 | refines put: refused, updated, appended or displacing |
| `FileCache.FileCache.Discard` | kernel/file_cache.c:78-89 | the shifting loop refines invalidate |
| `Scenarios.SbrkStrands` | kernel/elf.c:45-62 | a run from start-up and `heap_init` on after which `user_sbrk(1)` succeeds and leaves its page unmapped |
| `Scenarios.SbrkWraps` | kernel/elf.c:37-41 | a run from start-up after which a wrapping increment moves the break by 2 GB without a page |
| `Scenarios.SecondExec` | kernel/elf.c:213-292 | load, break call, load: the second program starts with a page of the first one's heap mapped above its break |
| `Scenarios.SecondStack` | kernel/fs.c:172-187 | a second program start loses the frame of the first stack page for good |
| `Scenarios.FailedLoadDestroys` | kernel/elf.c:236-288 | a load that runs out of frames fails and leaves the running program's page unmapped |
| `HeapScenarios.SplitRun` | kernel/kernel.c:536-570 | two requests, one free and a third request that breaks the page; every later request returns NULL |
| `Scenarios.PhysicalFree` | kernel/kernel.c:185-229 | a region at 1 MB whose counter is wrong after start-up, because the bitmap's page was reserved before, and whose vital frames are reserved |
| `Scenarios.BootShape` | kernel/kernel.c:633-670 | start-up takes 69 frames, leaves the directory slots of user space empty and fills those of the kernel heap |
| `Scenarios.TinyLoads` | kernel/elf.c:213-292 | an 84-byte file that is accepted and loads after start-up |
| `Scenarios.TinyImage` | kernel/elf.c:213-292 | what that program then reads through the page tables |
| `Scenarios.HeapInit` | kernel/kernel.c:509-518 | `heap_init` after start-up takes one page and leaves user space empty |
| `Scenarios.StartedReady` | kernel/fs.c:172-187 | heap page, load and stack after start-up meet the conditions of `Process.ProcessHeap` |
| `FileScenarios.ReadWraps` | kernel/syscall.c:187-194 | a run from the initial file system that ends in a read of 4 GB |
| `FileScenarios.ResidueShows` | kernel/syscall.c:54-70 | a run from the initial file system after which a write leaves [0, 2, 9] |

## Left out

- Hardware and assembly: ports, VGA, keyboard, RTC, descriptor tables, `invlpg`, CR0, CR3. Kernel stores ignore the write bit, as with CR0.WP clear.
- A store through a physical address goes to its frame here, whatever the page tables say; that is what the source does for frames below 16 MB (`LowMemory.PhysicalReach`), and runs that need higher ones for tables, stack pages or buffers are not those of the source.
- Multiboot and the memory-map part of `pmm_init`: the model starts at counting the clear pages. Total pages are taken to be at most 2^20 with page 0 not managed.
- `memset`, `memcpy`, `strlen`, `strcmp` and `strcpy` are taken at their ISO C contracts (sections 7.24.6.1 and 7.24.2.3 of C11); the bodies at lib/libc/string/memset.c:4 and lib/libc/string/strcpy.c:6 do not advance the pointer or write the terminator.
- Elf.LoaderCorrect: says nothing about an address whose page a later header takes over; `Image.LoadShows` says what is there.
- The product `i * e_phentsize` is unbounded here; in the source it is an `int`, which does not overflow for files under 2 GB.
- HeapObject.KHeap.Release: says which words `kfree` leaves for a pointer at a forged header that passes its tests, not whether the heap survives it. The runs of `HeapPayloads` and `KernelRuns` pass only payloads to `kfree`, and their owners store only inside live payloads.
- HeapObject.KHeap.AllocPage: takes its frame from a list and maps no page; `KernelRuns.MallocRefines` ties the list to the frame allocator and `KernelRuns.AddInv` maps the page.
- HeapValidity.ValidExact: says nothing about a first-block pointer into the last 24 bytes of the address space, where the source's sums wrap.
- KernelRuns.KernelRun: takes the 64 page tables of the heap as present, as start-up leaves them whenever 69 pages are free; without its table a new heap page would fault on the first store.
- The bitmap lies outside the modelled memory; that no call ever reaches its frame is part of `Reserved.FrameOwnership`.
- File buffers are never given back, as in the source; which file holds which buffer is not tracked by the frame ledger.
- `k_exec` before and after the frame (path lookup, `jump_usermode`) and `elf_exec`.
- ExecFrame.BuildFrame: what lies in the page below the stack, if it is mapped at all, is a parameter.
- `write` to descriptors 1 and 2 prints and is not modelled; `stat`, `fstat` and `getdents` are not calls of the descriptor runs, since they change no file.
- Paths given to creating calls are C strings under 32 bytes, as a vnode's name field holds; longer ones overflow it in the source.
- Files.ReadContents: an overrun has its own outcome with the offset and return value the code computes; the memory it overwrites is not modelled. The same holds for a write outside the buffer of an installed file.
- `vfs_append_file`, `vfs_write_file` with data, `vfs_stat` and the other path queries: easy members beside the descriptor calls.
- Getdents.GetDents: models the loop; the argument checks before it and the copy into the caller's buffer are not modelled.
- Calculator: `int` overflow is undefined in C and wraps here; INT_MIN / -1 likewise.
- Calendar.Localtime: covers times from the Epoch on; the branch for negative times and `tm_wday`, which is computed after the years are subtracted, are not modelled. Years are unbounded.
- Calendar.ToSeconds: takes months 1 to 12, as the clock delivers them.
- Snake.SnakeInvariant: the random numbers are a finite stream; a game whose stream ends inside food placement stops there, which stands for a loop that never ends. The score is unbounded. Drawing and colours are left out.
- FileCache.CacheAgrees: names are C strings under 64 bytes; a returned pointer is the bytes at the time of the call.
- Shell, editors, `printf`, the `gcc` command, stub system calls: user interface or constant returns.
