# Verification of the vgc_malloc allocator

`vgc_malloc` is a first-fit, split-and-coalesce allocator. It asks the kernel for large regions,
keeps in each a doubly linked list of blocks whose headers lie inside the region, chains the
regions in a second doubly linked list, and hands a region back when its last block is freed. In
its memory-protection mode it rounds blocks to pages, shifts every pointer so that the caller's
range ends where the next header begins, and makes the first page of each new header
inaccessible, so that an overrun faults. This project models that allocator in Dafny, function by
function, and proves what it keeps over every run, what it gives back, and exactly when it does
not do what its comments promise.

`dafny verify dfyconfig.toml` checks the whole project.

## How it is built

| file | content |
|---|---|
| `Arithmetic.dfy` | rounding to pages, the page mask as bitwise arithmetic, conversions between `size_t` and `int` |
| `Layouts.dfy` | the constants of a build: page size, header sizes, region size, the protection flag |
| `Blocks.dfy` | one region as a sequence of blocks: carve, absorb, release, and what they keep |
| `States.dfy` | the whole allocator as a value: `Malloc` and `Free`, and their invariant |
| `LiveRanges.dfy` | where the callers' ranges and the guard pages lie |
| `Runs.dfy` | the reference allocator (a map of disjoint ranges), refinement, malloc-then-free |
| `Drain.dfy` | what is left mapped when everything is freed |
| `Outcomes.dfy` | what `vgc_malloc` returns and leaves, case by case |
| `Traces.dfy`, `Alignment.dfy`, `Accounts.dfy` | whole runs: refinement, safety, pointer alignment, byte accounts, completeness |
| `OldHeaderRun.dfy` | a run after which a pointer misleads `vgc_free` |
| `Contents.dfy` | the contents of live payloads over whole runs |
| `Memory.dfy`, `Representation.dfy` | structures at addresses, and when memory represents a state |
| `Leftovers.dfy` | headers that merges leave behind, and what they do to `vgc_free` |
| `Callers.dfy` | what `vgc_calloc`, `vgc_realloc` and the callers write |
| `Checker.dfy` | what `checkMmapBlock` accepts |
| `Allocator.dfy` | class `Allocator`: the functions of the source, updating memory in place |
| `Locks.dfy` | the locking protocol, for any number of threads |

Pointers are addresses and 0 is null. The two structures are records in maps from addresses to
records, which are the memory they lie in: a C store through a pointer is an update of the map at
that address, so equal pointers name one structure, pointer arithmetic is arithmetic, and stale
headers stay where they were. The abstract state knows where (`written`): a header left behind by a
merge stays readable until a caller writes its bytes, a header is written in its place, or its
region is unmapped. `bytes` holds the contents of memory; `StoreHeader` and
`StoreMmapHeader`, the only ways a header is written once its region is set up, scramble the
bytes of the structure they write, so "no header write touches a payload" is a statement about
memory contents. `protNone` is the set of inaccessible pages. Every read of a structure goes
through `LoadHeader`, `LoadMmapHeader` or `ReadAt`, and every write through the two store methods,
`Zero` or `Copy`; all of them demand that what they touch is outside `protNone`, so that no access
of the allocator faults is proved with each method. The kernel's answers to `mmap` are a
parameter, as is everything else the functions cannot know.

A run is any sequence of requests, frees and callers' writes from the empty allocator: any sizes,
any order, any answers of `mmap`, every write inside what was asked for, every free of a live pointer
or of one the window test rejects, none that is misled in the sense explained below. Reachable
means by such a run.

Each method of class `Allocator` is proved to compute a function on values (`Malloc`, `Free`,
`Allocate`, `Release`); the lemmas say what those functions mean. Sizes, the kernel's answers, the
order of frees, the page size and the region size are arbitrary. The page size is any power of two
from 8 to 2^31; with protection a block header is two pages and a region header one, as in
`src/vgc_malloc_private.h:29-79`.

## Where the code and its comments differ

The model follows the code in every case.

- A length that is a multiple of the page size is shifted by a whole page (`src/vgc_malloc.c:446`).
  What follows is stated exactly.
  `vgc_free` computes a wrong header for these lengths and
  no others (`HeaderRecovered`), one page behind the right one. If the bytes there do not pass for a
  header it gives up, and the block is lost. If a merge has left an old header there it does not
  give up (`Misled`): it counts the element out, after which memory represents no valid state
  (`FreeMisled`), and goes on to merge the old header. Five calls in the configured build, without
  any write by a caller, lead to such a pointer (`RunReachesOldHeader`). Runs and drains are
  therefore stated for frees that are not misled. The range leaves its block unless the
  block has a page to spare (`PlacementExact`), and leaves its region if moreover the block is the
  last (`RangeInRegion`). Unless the next header was freed before, the page it leaves its block for
  is that header's guard page (`RangeFaultsExactly`): in the configured build `vgc_malloc(4096)` as
  the first call returns the address of an inaccessible page (`BuildHandsOutGuard`). A single page
  at the end of a full-size region even fails the window test of `vgc_free` (`WindowExact`). And if
  another region starts right behind the one a range leaves, the range contains that region's
  header, which is not protected (`RangeHitsFields`).
- Pointers are said to be aligned for any variable (`src/vgc_malloc.c:560`). With protection they
  have the alignment of the requested length: `PointerAlignment`, and `RunPointerAlignment` for
  both builds.
- Releasing the head of the region list forgets its successors (`src/vgc_malloc.c:635`). `DrainExactly`
  gives the exact condition under which freeing everything returns everything; `OrderMatters` is a
  run of two requests in which the order decides; `HeadReleaseStrandsSuccessors` says what is lost.
  The condition includes that every region has served a request: when the smaller region mapped
  after a refusal is still too small for the request (`src/vgc_malloc.c:495`, `618`) it stays listed, and
  no free ever looks at it.
- When there is no region and none is to be had, `vgc_malloc` returns null but leaves `MAP_FAILED` as
  the list head (`src/vgc_malloc.c:570-571`), which the next call dereferences. The contract of
  `VgcMalloc` says exactly when; a run ends with such a call.
- A reused block's guard page is not protected again (`src/vgc_malloc.c:424`, `757`), and a block that
  is larger than the rounded length does not end at a guard page. `OverrunFaultsExactly` says when
  the first byte of an overrun faults.
- `vgc_realloc` does not undo the shift (`src/vgc_malloc.c:889`): with protection it never finds the
  header (`ReallocFindsHeader`), and how much it copies is decided by what lies in front of the
  pointer: `VgcRealloc`.
- `vgc_calloc` multiplies modulo the width of `size_t` (`src/vgc_malloc.c:843`); the array is fully
  zeroed when the product does not wrap.
- `checkMmapBlock` returns true for a list whose totals are wrong; it only reports them
  (`src/vgc_malloc.c:235-240`). The modelled result `reported` is that message. It runs for ever
  if the links lead back to the first header, and only then: `CheckMmapBlock`, `RingNeverEnds`.
- The region mutexes alone would not protect the lists: some writes are made under the shared
  mutex only, `OwnMutexExactly`.
- The build without memory protection does not compile as it stands (`src/vgc_malloc.c:531` sets a
  member declared only under the protection macros); it is modelled by its evident intent, with
  protection calls that do nothing.

## Model

| member | source | states |
|---|---|---|
| Arithmetic.MaskRoundsDown | src/vgc_malloc.c:700-703 | masking with the complement of the page size minus one rounds down to a page, for every power-of-two page and every word width |
| Arithmetic.MaskRecovers | src/vgc_malloc.c:700-705 | a pointer less than a page past a page boundary masks back to it, a pointer a whole page past does not |
| Arithmetic.RoundUpLeast | src/vgc_malloc.c:406 | the rounded length is the least page multiple that is not smaller |
| Arithmetic.TruncationKeepsPageRemainder | src/vgc_malloc.c:403-446 | storing the length in an int changes nothing the shift looks at, for every length |
| Layouts.Layout.AlignRequestGrows | src/vgc_malloc.c:578-580 | without protection a request becomes the least multiple of 8 that is not smaller, or 0 exactly when that wraps; with it nothing changes |
| Layouts.Layout.FallbackSize | src/vgc_malloc.c:495 | the second size tried is a tenth of the first, rounded down |
| Blocks.AllocateSound | src/vgc_malloc.c:403-442 | taking a block keeps the tiling of the region, the absence of adjacent free blocks, page alignment and the fit of every live block, and makes one more block live |
| Blocks.FitTestSound | src/vgc_malloc.c:381-407 | page multiples make the unrounded fit test imply room for the rounded length |
| Blocks.AllocateBusySet | src/vgc_malloc.c:435-442 | exactly the chosen block becomes live |
| Blocks.FirstFitEarliest | src/vgc_malloc.c:379-391 | the search finds the earliest free block that is large enough, and misses only when there is none |
| Blocks.ReleaseFuses | src/vgc_malloc.c:644-667 | although each merge absorbs one neighbour, freeing fuses the whole maximal run of free blocks |
| Blocks.ReleaseSound | src/vgc_malloc.c:756-759 | freeing keeps tiling, coalescing, alignment and fit |
| Blocks.ReleaseLive | src/vgc_malloc.c:756-762 | exactly the freed block stops being live, and one block is left exactly when it was the last live one |
| Blocks.OneBlockIffIdle | src/vgc_malloc.c:761-762 | a coalesced region has no live block exactly when it is a single free block |
| Blocks.Conservation | src/vgc_malloc.c:232-233 | payloads and headers account for every byte of the region |
| Blocks.BlockCountBound | src/vgc_malloc.c:644-667 | a coalesced region has at most 2n + 1 blocks for n live ones |
| Blocks.AllocateReleaseRoundTrip | src/vgc_malloc.c:410-440 | freeing a just-allocated block restores every address, size and status, split or not |
| States.MallocServed | src/vgc_malloc.c:593-618 | a served request is taken from the first listed region with a fit, else from a new one |
| States.FreshHeadServes | src/vgc_malloc.c:566-585 | a region made for an empty list serves the request, so mmap is asked for one region per call |
| States.FirstRegionEarliest | src/vgc_malloc.c:593-602 | the region used is the earliest in list order in which some block fits |
| States.EnlistInv | src/vgc_malloc.c:328-365 | a new region keeps the invariant of the whole allocator |
| States.AllocateAtLive | src/vgc_malloc.c:371-461 | serving a request brings one block to life that was not live before, with the pointer returned |
| States.FreeAtLive | src/vgc_malloc.c:756-819 | freeing removes exactly the freed block from the live ones, whether or not the region is unmapped |
| LiveRanges.PlacementExact | src/vgc_malloc.c:444-447 | the caller's range lies in the payload exactly when the length is not a page multiple or a page is to spare |
| LiveRanges.EndsAtNextHeader | src/vgc_malloc.c:414-447 | the range ends at the next header exactly when the block has the rounded length, as after every split, or for a page multiple one page more |
| LiveRanges.PointerAlignment | src/vgc_malloc.c:560-561 | with protection a pointer has an alignment that divides the page size exactly when the length has it |
| LiveRanges.HeaderRecovered | src/vgc_malloc.c:700-705 | vgc_free recovers the header exactly when the length is not a page multiple, and is one page off otherwise |
| LiveRanges.LiveRangesDisjoint | src/vgc_malloc.c:371-461 | live ranges never overlap and no two pointers are equal, whatever the lengths |
| LiveRanges.RangeInRegion | src/vgc_malloc.c:444-447 | a live range leaves its region exactly when its length is a page multiple, its block has no page to spare, and the block is the last |
| LiveRanges.MetadataOutside | src/vgc_malloc.c:341-351 | no block header and no region header overlaps the payload of a live block |
| LiveRanges.RangeFaultsExactly | src/vgc_malloc.c:414-447 | a live range contains an inaccessible byte exactly when its length is a page multiple, its block has no page to spare, and the next header was never freed |
| LiveRanges.HeaderFieldsAccessible | src/vgc_malloc_private.h:54-79 | the fields of headers, in their second page, and region headers are never inaccessible |
| LiveRanges.StructuresOpen | src/vgc_mprotect.c:71-98 | in every valid state all fields of all structures, which is what the allocator reads and writes, lie outside the protected pages |
| LiveRanges.UsableExactly | src/vgc_malloc.c:444-447 | the bytes asked for can all be written exactly when the length is no page multiple, or a page is to spare, or the next header was freed before |
| LiveRanges.RangeHitsFields | src/vgc_malloc.c:444-447 | a live range contains a field of a structure exactly when its length is a page multiple, its block has no page to spare and is the last, and another region starts directly behind; the field is then accessible |
| LiveRanges.FieldsApart | src/vgc_malloc_private.h:54-79 | no field of any structure lies in a payload or in the protectable page of a header |
| LiveRanges.OverrunFaultsExactly | src/vgc_malloc.c:414-447 | for every length, when the first byte past a range faults: the range ends at a header never freed, or overshoots the last block of a region that another, with such a first header, directly follows |
| LiveRanges.SplitGuardsRange | src/vgc_malloc.c:414-447 | right after an allocation that split its block a page is inaccessible: the one behind the range, or for a page multiple the last page of the range itself |
| LiveRanges.AllocateGuards | src/vgc_malloc.c:424 | allocation protects the header of the remainder of a split, and no other |
| LiveRanges.ReleaseGuards | src/vgc_malloc.c:648-662 | freeing takes down the guard of the freed header and of an absorbed successor, and no other |
| Runs.MallocRefines | src/vgc_malloc.c:564-625 | vgc_malloc adds one range, disjoint from all others, to the map of live ranges, or changes nothing; it succeeds exactly when some region can serve |
| Runs.FreeRefines | src/vgc_malloc.c:680-827 | a free that is not misled removes exactly the freed range if isInMmapBlock lets the pointer through and the length is not a page multiple, and otherwise changes nothing |
| Runs.WindowExact | src/vgc_malloc.c:248-255 | a live pointer into a listed region passes isInMmapBlock, except exactly a page in a block of one page that ends a full-size region |
| Runs.MallocThenFree | src/vgc_malloc.c:610-819 | freeing a just-returned pointer restores the state; a region made for it, or without other live blocks, is unmapped; for a page multiple nothing happens unless an old header misleads vgc_free |
| Drain.UnmappedExactly | src/vgc_malloc.c:761-813 | a region is unmapped exactly when its last live block goes, and no other region changes |
| Drain.FreedExactly | src/vgc_malloc.c:630-819 | what a free leaves of the region, of the list in its order, and of the headers written |
| Drain.IdleRegionUnused | src/vgc_malloc.c:341-352 | a mapped region without live blocks is one free block that was never used |
| Drain.DrainExactly | src/vgc_malloc.c:634-635 | if no free is misled, freeing all live pointers, in any order, unmaps everything if and only if every region is listed and in use, no length is a page multiple, and the last pointer freed belongs to the head region |
| Drain.DrainByWindow | src/vgc_malloc.c:634-819 | in every state, listed or not, large or small regions: if no free is misled, freeing all live pointers unmaps everything if and only if every region is in use, no length is a page multiple, and every pointer passes the window test when its turn comes |
| Drain.NamedFreeable | src/vgc_malloc.c:695-705 | no free is misled, in any order, when no live page multiple has an old header one page behind its own |
| Drain.StuckStays | src/vgc_malloc.c:761-813 | a region without live blocks, or with a live page multiple, survives every free that is not misled |
| Drain.UnlistedStays | src/vgc_malloc.c:248-255 | a region dropped from the list is never returned while all listed regions have the full size |
| Drain.DrainOneRegion | src/vgc_malloc.c:761-813 | with one region in use, if no free is misled, every order of freeing returns it exactly when no length is a page multiple |
| Drain.HeadReleaseStrandsSuccessors | src/vgc_malloc.c:634-639 | releasing a head with successors leaves them mapped and live, and no pointer can be freed any more |
| Traces.RunInv | src/vgc_malloc.c:564-827 | every state reachable by any run of requests, callers' writes and frees that are not misled satisfies the invariant |
| Traces.RunRefinesReference | src/vgc_malloc.c:564-827 | every step of such a run is a step of the reference allocator: malloc adds the returned range exactly when some region serves, free removes exactly the range of a pointer that passes the window test with a length that is no page multiple, writes change no range |
| Traces.RunSafe | src/vgc_malloc.c:564-827 | in every state such a run reaches live ranges are disjoint, and leave their region or contain an inaccessible byte exactly under the conditions of RangeInRegion and RangeFaultsExactly |
| Traces.RunFreeable | src/vgc_malloc.c:695-705 | in every reachable state a live pointer into a listed region passes the window test and leads to its header exactly when its length is not a page multiple |
| Traces.FirstRequestGuarded | src/vgc_malloc.c:414-447 | in every layout with protection, a first request for whole pages gets a range whose last page is inaccessible |
| Traces.BuildHandsOutGuard | src/vgc_malloc.c:444-447 | the configured build reaches a state in which a live one-page range is an inaccessible page |
| OldHeaderRun.RunReachesOldHeader | src/vgc_malloc.c:644-705 | the configured build reaches, by five calls and no write of a caller, a state in which the pointer of a live one-page block leads vgc_free to an old header |
| Contents.RunKeepsContents | src/vgc_malloc.c:564-827 | over every such run a byte of a live payload keeps its value until a write through its own pointer |
| Alignment.RunPointerAlignment | src/vgc_malloc.c:560-580 | in every reachable state a pointer is aligned to 8 exactly when pages are not protected or its length is a multiple of 8 |
| Traces.RunLeavesNoDrainedRegion | src/vgc_malloc.c:761-813 | for any interleaving, once a region has a live block it has one at every later step at which it is still mapped |
| Traces.OrderMatters | src/vgc_malloc.c:634-635 | a reachable state in which one order of freeing returns everything and the other does not |
| Accounts.WasteBound | src/vgc_malloc.c:414-431 | live blocks waste at most one header each beyond rounding |
| Accounts.RunAccounts | src/vgc_malloc.c:435-728 | in every reachable state a region's bytes are accounted for, the element count is the number of live blocks, and block count and waste are bounded by it |
| Accounts.RunCoalesced | src/vgc_malloc.c:644-667 | in every reachable state neighbours touch and are never both free |
| Accounts.RunFitTestSound | src/vgc_malloc.c:381-430 | in every reachable state the fit test is sound and a split leaves whole pages |
| Accounts.MallocSucceedsExactly | src/vgc_malloc.c:573-624 | with full-size regions and a willing kernel a request succeeds exactly when it is positive and below the limit |
| Outcomes.MallocFirstFit | src/vgc_malloc.c:379-602 | the block taken is the earliest fitting one of the earliest region that has one; it is split exactly when a byte is left over, no region is opened, and no other block changes |
| Outcomes.MallocRefusedIff | src/vgc_malloc.c:564-625 | null is returned exactly when the size is 0, or not below the limit of the first region, or there is no region and none to be had, or nothing listed fits and no region, or only one too small, can be had |
| Outcomes.MallocRefusedExactly | src/vgc_malloc.c:564-625 | a refused request leaves a first region behind whatever the size, or a smaller region although it is too small, each with one free block at the end of the list, and in every other case what was there |
| Outcomes.MallocOpensRegion | src/vgc_malloc.c:566-618 | when nothing listed fits, one region of the size mmap granted is appended, holding the block and what is left over, and no other changes |
| Memory.CarvedList | src/vgc_malloc.c:413-442 | the stores of an allocation turn the doubly linked list into that of the carved region |
| Memory.AbsorbedList | src/vgc_malloc.c:649-665 | the stores of a merge turn the doubly linked list into that of the merged region |
| Checker.NeverRevisits | src/vgc_malloc.c:200-230 | since no header has two predecessors the walk can only meet itself where it began, on arbitrary links |
| Checker.RingNeverEnds | src/vgc_malloc.c:200-230 | if the links lead back to the first header past every test, every test passes for any number of steps |
| Checker.WalkFollows | src/vgc_malloc.c:200-230 | a list the checker accepts is the only one, and the walk follows it |
| Checker.SoundRegionAccepted | src/vgc_malloc.c:194-241 | every well-formed region is accepted, and its totals agree exactly when it has the full size |
| Representation.ProtectedExactly | src/vgc_mprotect.c:71-98 | a page is inaccessible exactly when it guards a listed header that was never freed |
| Representation.FoundHeader | src/vgc_malloc.c:700-705 | vgc_free is led to the header of a live block, or, for a page multiple, to a place where no block of any region starts |
| Representation.EnlistedRepresents | src/vgc_malloc.c:328-365 | linking a new region keeps memory and abstract state in step |
| Representation.UnlinkedRegions | src/vgc_malloc.c:765-801 | unlinking a region, listed or not, keeps the links of all others mutually inverse |
| Leftovers.MiscountBreaks | src/vgc_malloc.c:728 | an element counted out without a block being freed leaves memory that represents no valid state |
| Leftovers.OverwrittenRepresents | src/vgc_malloc.c:700-705 | bytes that hold no field of a current structure can be overwritten; exactly the old headers with a byte of their fields among them are lost |
| Callers.ReallocFindsHeader | src/vgc_malloc.c:889 | vgc_realloc's header lookup is right exactly without page protection |
| Allocators.Allocator.CheckMmapBlock | src/vgc_malloc.c:194-241 | on memory in any condition, unless the links lead back to the first header, the check terminates, accepts exactly null-terminated mutually linked lists of headers in the region none of which is too large, rejects a header reached over intact links that breaks a test, and reports exactly the totals that do not add up |
| Allocators.Allocator.FindBlock | src/vgc_malloc.c:379-391 | the search loop returns the first fitting block, or null |
| Allocators.Allocator.SplitOff | src/vgc_malloc.c:410-431 | the remainder of a split is written, linked and protected |
| Allocators.Allocator.CarveBlock | src/vgc_malloc.c:403-447 | list, element count, guard pages and returned pointer are those of the carved region, and no other header is written |
| Allocators.Allocator.AllocMallocBlock | src/vgc_malloc.c:371-461 | memory moves as the abstract allocation does, and no byte of a live payload changes |
| Allocators.Allocator.AllocMMAP | src/vgc_malloc.c:292-366 | a mapped region is initialised and appended, a refusal changes nothing |
| Allocators.Allocator.MmapBlockAllocate | src/vgc_malloc.c:486-504 | the full size is tried first, then a tenth, and the region made has the size granted |
| Allocators.Allocator.SearchRegions | src/vgc_malloc.c:592-602 | the listed regions are asked in order until one serves |
| Allocators.Allocator.EnsureFirst | src/vgc_malloc.c:566-571 | a region becomes the list head if there was none, whatever the size asked for; otherwise nothing changes |
| Allocators.Allocator.VgcMalloc | src/vgc_malloc.c:564-625 | computes the abstract Malloc in memory, changes no byte of a live payload and no header left behind; the list head afterwards is the first region, or MAP_FAILED exactly when there is none and mmap refuses both sizes |
| Allocators.Allocator.IsInMmapBlock | src/vgc_malloc.c:248-255 | true exactly when the pointer lies strictly inside the full-size window of a listed region |
| Allocators.Allocator.FreeBlocksNext | src/vgc_malloc.c:644-653 | absorbs a free successor, in the list and in the guard pages |
| Allocators.Allocator.FreeBlocksPrev | src/vgc_malloc.c:658-667 | is absorbed by a free predecessor, in the list and in the guard pages |
| Allocators.Allocator.Unlink | src/vgc_malloc.c:765-796 | the two neighbours are linked to each other, and the links of all other regions stay mutually inverse |
| Allocators.Allocator.FreeMMAP | src/vgc_malloc.c:630-801 | unlinks the region, drops the list if it was the head, counts it out and unmaps its pages |
| Allocators.Allocator.Locate | src/vgc_malloc.c:682-726 | the tests let a pointer through exactly when it lies in a window and four check values are in place, that is, when it is found, or when what lies one page behind the header of a page multiple passes for a header |
| Allocators.Allocator.VgcFree | src/vgc_malloc.c:680-827 | for a pointer that does not mislead it, computes the abstract Free in memory and changes no byte of a live payload; a pointer it does not find leaves memory as it is |
| Allocators.Allocator.FreeMisled | src/vgc_malloc.c:707-728 | misled by an old header, vgc_free counts a live block out, and memory then represents no state in which the invariant holds |
| Allocators.Allocator.Zero | src/vgc_malloc.c:850 | zeroes the range or stops at the first byte that cannot be written; exactly the old headers under the range are lost |
| Allocators.Allocator.Copy | src/vgc_malloc.c:891 | copies the range; exactly the old headers under the target are lost |
| Allocators.Allocator.VgcCalloc | src/vgc_malloc.c:841-851 | the memset faults exactly when a guard page lies in the range; otherwise the returned array is zero throughout, exactly the old headers under it are lost, and no other live payload and no structure changes |
| Allocators.Allocator.VgcRealloc | src/vgc_malloc.c:870-894 | as many bytes are copied as the smaller of the new size and the old, which with protection is what is misread for it; those in the old and new payloads arrive, without protection all of them; on failure the old block is untouched; no other live payload changes |
| Locks.TransitionLocks | src/vgc_malloc.c:375-826 | on every path, failed locks included, a thread takes what it lacks, returns what it has, and takes the shared mutex first |
| Locks.RunKeepsLocks | src/vgc_malloc.c:587-826 | over every run the lock table says exactly which thread holds which lock |
| Locks.Exclusive | src/vgc_malloc.c:587-826 | at most one thread holds any lock |
| Locks.WritesExclusive | src/vgc_malloc.c:334-826 | while a thread is at a step that writes the list head, the region count or the data of a region, no other thread is past the shared mutex |
| Locks.OwnMutexExactly | src/vgc_malloc.c:334-728 | those steps hold the mutex of the region written, except exactly linking behind the last region, counting an element out and unmapping |
| Locks.QuietMeansUnlocked | src/vgc_malloc.c:587-826 | when all threads are outside, every lock is free |
| Locks.NoDeadlock | src/vgc_malloc.c:587-826 | whenever a thread is inside, some thread can move on |
| Locks.HolderFinishes | src/vgc_malloc.c:587-826 | every move of the holder of the shared mutex brings its release closer |
| Locks.UnmapsWithoutFailure | src/vgc_malloc.c:761-819 | over every run a thread unmaps only the region it checked, and only if none of its attempts to take a lock has failed since |
| Locks.UnmapAfterCheck | src/vgc_malloc.c:736-819 | every unmapping comes after the check of a region by the same thread |

## Left out

- VgcFree: double frees and pointers into a listed region that are not live are undefined by the source's own comment. A pointer that misleads it is followed as far as the first store only (`FreeMisled`), and only when it is an old header that misleads; bytes that merely look like one (`junk`) name a region of their own choosing.
- VgcMalloc: calls after the failure value was left as the list head are not modelled, as they follow it as a pointer.
- VgcCalloc: a range that leaves its region is not modelled, as the memset then writes memory the model knows nothing about; `RangeInRegion` says when that is, and a length whose alignment wraps always is. After a fault the process is gone.
- VgcRealloc: with page protection what the source misreads as the old size is the parameter `stray`; copies that fault, overlap or reach beyond the new block (`Copyable`), and old pointers that mislead vgc_free, are not modelled, nor are sizes whose alignment wraps.
- DrainExactly: for a state in which some region has been dropped from the list while a listed one has the smaller size, which pointers pass the window test depends on the order of frees; `DrainByWindow` covers it.
- CheckMmapBlock: totals are unbounded integers, and the walk is assumed to stay among readable headers.
- Heap objects: the two C structs are records in address-indexed memory rather than heap objects, as explained above; padding and the unused `free` field are not represented.
- VgcMprotect: page protection calls are assumed to succeed; the source ignores their result.
- Branches that report a corrupted list or a wrong region checksum in `allocMallocBlock` and `vgc_free`: shown unreachable from valid states, not followed further.
- Locks: which step writes what is an annotation of the steps (`Writes`), as the model of the protocol has no lists.
- Failures of lock, unlock and mutex initialisation in the sequential model; failing lock attempts are part of `Locks.dfy`, failing unlocks and owner-death recovery are not.
- The unlocked creation of the first region and the unlocked reads of the list head (`src/vgc_malloc.c:566-585`) in the threaded model.
- Messages, dumps and stack traces: output only.
- Process start-up and shutdown: they run once, outside any call modelled here.
- Forked children, the socket layer and the protection-key variant: not part of the configured build.
- The C++ memory manager and operator new: stubs and one-line forwarding.
