# Verification of bento-linker's algorithms

bento-linker splits the firmware of a microcontroller into boxes. It is written in Python
and generates C: a heap, the handlers that switch between boxes, decoders that load
them, a small `printf`. This project models the algorithms in that generated C and in the
Python that places memory and resolves imports, and proves what they promise. Line
numbers refer to the repository's files. Code that changes state step by step is modelled
by methods and classes that are proved against functions of the old state; the properties
are then proved about those functions, over all inputs and all runs.

| part | files |
|---|---|
| boundary-tag heap | `HeapBlocks`, `HeapOps`, `HeapRun`, `HeapAllocator` |
| GLZ: codes, meaning, decoder, encoder | `GlzBits`, `GlzMeaning`, `GlzBlob` (with the decoder), `GlzEncoder`, `GlzExample` |
| GLZ from a block device | `BlockDevice`, `GlzBlockDecoder`, `GlzTables` |
| MPU runtime: registers, addresses, calls, returns, faults | `MpuRegions`, `MpuDispatch`, `MpuProtocol`, `MpuStack`, `MpuRuns`, `MpuExamples`, `MpuMachine` |
| memory for boxes | `Carving`, `Roommates` |
| function types and linking | `FnTypes`, `FnRoundTrip`, `FnBinding`, `Linking`, `Linker` |
| printing numbers | `Numerals`, `PrintfNumbers` |

## Where the code does less than it seems to promise

Each of these is proved with the exact condition under which the code does keep the promise.

- A block exactly one word larger than the request gets its used footer one word too low
  (heap_glue.py:80). The heap can be read as a tiling afterwards exactly when that does
  not happen (`MallocReadable`); an even heap with even requests never gets there.
- The rounding `size+3` wraps: the rounded request covers the asked bytes exactly when
  they are at most 0xfffffffc (`RequestCovers`; in `WrapExample` a heap of eight words
  serves a request for 0xfffffffd bytes).
- `__box_returnsetup` writes the return code of the domain that returns over the one its
  record held. A call by a domain that is entered again inside it returns with the
  domain's own code exactly when its last return in there carried that code
  (`OwnCodeIff`; `ReentryCodeExample` is a state where it does not). The system's
  `caller` field also stays at the last box that called it.
- A fault pops one activation. When the faulting box had an older one, the state left
  stands for no stack of calls at all; it does exactly when the box had none
  (`FaultLeavesStackIff`; `ReentryFaultExample` is a state where it does not).
- A return to a box goes on at its frame, with its activation popped, exactly when all
  that was lent of its stack has been given back (`ReturnPopsIff`; in `LentReturnExample`
  four words are still lent and no stack of calls is left).
- A memory with mode `w` or `x` but without `r` is accepted, and the box gets no access to
  it. Exactly the modes named are granted when reading is among them or they are empty
  (`ModesGrantedIff`). Where memories of one box overlap the last of them decides.
- The call region the runtime picks by itself is sized by the exports of all boxes, but the
  offsets of the system's calls go by the box with the most. They all lie in the region
  exactly when the last one of each box does (`SystemCallsFitIff`; `CallOutsideExample` has
  two boxes and ten exports). The calls of the boxes always fit (`BoxCallsFit`).
- The fault handler compares with the address of the call region instead of its size. A
  faulting address outside the region is taken for a call exactly when its distance from
  the region, modulo 2^32, is less than the address of the region (`CauseIff`).
- The GLZ decoder returns 0 with an output that is too short exactly when a reference
  shorter than what is left is met while the slot is in use (`LoopComplete`;
  `ShortOutputExample` is a blob of six bytes where it is).
- The cached block device read copies every part to the start of the buffer. It is right
  for every device exactly when the read stays inside one window (`ReadsRightIff`).
- A table entry that crosses into another window is read wrongly. The table is safe
  exactly when it has no more entries than there is room for in front of the first that
  crosses, which is 14 for an aligned table and the default buffer (`TableFitsIff`,
  `DefaultRoom`). For every larger table there is an archive the decoder loses
  (`CrossingArchive`, `LoseSlice`), where the crossing stays inside a block; at the end of
  a block it depends on what the device does behind it.
- After a device error the buffer keeps the name of the window it held before, with what
  the device has left in it. After any reads the window is right, whatever a device leaves,
  exactly when it holds nothing or the last access of the device went well
  (`WindowRightIff`). Otherwise a later hit succeeds with what was left (`StaleHit`), and
  the next miss that goes well puts it right. The loader gives up at the first error and
  starts every load with an empty cache.
- Subtracting a region from a slice is exact exactly when the region is empty, misses the
  slice, or reaches its top (`MinusExactIff`; `MinusExample` takes 16 bytes out of the
  middle of 64).
- Two boxes that share memory are both marked exactly when one is brought up inside the
  bring-up of the other and still up when that finishes (`SafeThroughoutIff`;
  `NestedBringUp` is such a run).
- An import with several weak targets and no strong one is left unlinked without a message
  (`SilentlyUnlinkedIff`).
- The check of an export against an import does not look at the number of arguments, at
  `noreturn`, or at sizes only the import has. They are the same type exactly when these
  agree too (`SameTypeIff`, `NothingFitsAll`, `NoreturnExample`, `DroppedSizeExample`).
- A bound argument that is the size of another cannot be left out: the description cannot
  be rebuilt from its text (`RebuiltIff`).
- Zero padding goes in front of the minus sign (`ReadsBackIff`; `ZeroPaddedExample` is
  "00-42").

The encoder forces an immediate after each reference to keep decoding linear. Linear it
is, with at most two tokens for each byte (`ArchiveIsLinear`), but no proof here uses the
forced immediate: it is enough that words are learned where an immediate was emitted.

## Model

| member | source | states |
|---|---|---|
| HeapBlocks.TilingUnique | bento/glue/heap_glue.py:60-66 | the words of a heap determine its blocks: two tilings of the same words are the same |
| HeapBlocks.LiveDisjoint | bento/glue/heap_glue.py:79-82 | payloads of live blocks are disjoint, with both tags between them |
| HeapBlocks.ChecksPass | bento/glue/heap_glue.py:61-65 | in a tiled heap the comparison of header and footer succeeds at every block and the footer is inside |
| HeapOps.RequestCovers | bento/glue/heap_glue.py:57 | the rounded request covers the bytes asked for if and only if they are at most 0xfffffffc; above that it is zero words |
| HeapOps.MallocTiles | bento/glue/heap_glue.py:67-83 | what malloc writes turns the tiling into the one with the first fitting block split and marked, unless the block is one word too large |
| HeapOps.MallocBreaks | bento/glue/heap_glue.py:80 | with a block one word too large, no sequence of blocks tiles the heap after malloc |
| HeapOps.FreeTiles | bento/glue/heap_glue.py:106-120 | what free writes is the tiling with the whole run of free blocks around the freed one merged |
| HeapRun.MallocLive | bento/glue/heap_glue.py:48-89 | malloc adds exactly one payload, which was free, and keeps all others |
| HeapRun.MallocFrames | bento/glue/heap_glue.py:67-80 | malloc changes no word of a live payload |
| HeapRun.MallocNull | bento/glue/heap_glue.py:59-88 | NULL is returned if and only if every free block is smaller than the request, and then nothing changes |
| HeapRun.MallocCoalesced | bento/glue/heap_glue.py:67-83 | malloc makes no two free neighbours |
| HeapRun.MallocEven | bento/glue/heap_glue.py:70-80 | with even blocks and an even request all blocks stay even and the one-word case does not arise |
| HeapRun.FreeLive | bento/glue/heap_glue.py:91-121 | free removes exactly the freed payload |
| HeapRun.FreeFrames | bento/glue/heap_glue.py:106-120 | free changes no word of another live payload, however far it coalesces |
| HeapRun.FreeCoalesced | bento/glue/heap_glue.py:106-116 | after free no two neighbours are free |
| HeapRun.FreeEven | bento/glue/heap_glue.py:106-116 | merging even blocks gives an even block |
| HeapRun.StepKeepsGood | bento/glue/heap_glue.py:48-121 | a malloc, a free of a live payload or a store into one keeps tiling, coalescing and length |
| HeapRun.RunKeepsGood | bento/glue/heap_glue.py:48-121 | after every run the heap is tiled and coalesced, and the corruption check passes at every block |
| HeapRun.EvenRunsAreAllowed | bento/glue/heap_glue.py:48-121 | with even heap and even requests every run stays clear of the one-word case: parity is preserved |
| HeapRun.FreshEven | bento/glue/heap_glue.py:50-54 | the first heap meets the parity condition if and only if its word count is even |
| HeapRun.RunFrames | bento/glue/heap_glue.py:48-121 | a payload not freed or stored to during a run keeps its place, its size and every word |
| HeapRun.MallocServes | bento/glue/heap_glue.py:48-89 | a returned payload has at least the words asked for, lies in the heap and is disjoint from all others |
| HeapRun.FreeReleases | bento/glue/heap_glue.py:91-121 | free of a live payload removes it and no other |
| HeapRun.MallocReadable | bento/glue/heap_glue.py:79-80 | after malloc some tiling of the words exists if and only if the block was not one word larger than the request |
| HeapRun.WrapExample | bento/glue/heap_glue.py:57 | an empty heap of eight words from which a caller who asks for 0xfffffffd bytes gets a payload |
| HeapRun.OneWordExample | bento/glue/heap_glue.py:79-80 | a heap of one block that is one word larger than a request, which reaches that case |
| HeapRun.EmptyIsFresh | bento/glue/heap_glue.py:50-54 | a good heap with nothing live is the single first block |
| HeapRun.FreeAllRestores | bento/glue/heap_glue.py:48-121 | any run from the first heap after which nothing is live ends in the single first block, tags included |
| HeapAllocator.Allocator.Start | bento/glue/heap_glue.py:49-55 | the two first tags make a tiled heap of one free block |
| HeapAllocator.Allocator.Walk | bento/glue/heap_glue.py:59-86 | the pointer walk stops at the first fitting block, or at the end, and never at a failed check |
| HeapAllocator.Allocator.Take | bento/glue/heap_glue.py:68-80 | the in-place tag writes are those of the specification |
| HeapAllocator.Allocator.Malloc | bento/glue/heap_glue.py:48-89 | the whole new state and the result, for every size; the heap stays valid if and only if the one-word case is avoided |
| HeapAllocator.Allocator.Coalesce | bento/glue/heap_glue.py:106-116 | the loop terminates at the edges of the maximal run of free blocks |
| HeapAllocator.Allocator.Free | bento/glue/heap_glue.py:91-121 | the whole new state; never aborts on a live payload, and NULL changes nothing |
| GlzBits.ReadRiceOfCode | extra/glz/src/rice.rs:61-69 | reading a written Rice code gives the number, for every k, and stops right behind it |
| GlzBits.CodeOfReadRice | bento/loaders/glz.py:30-49 | whatever is read is the code of what was found there: each number has one code |
| GlzBits.ReadOffsetOfCode | extra/glz/src/glz.rs:187-204 | reading a written offset code gives the offset, for every natural |
| GlzBits.CodeOfReadOffset | bento/loaders/glz.py:64-81 | each offset has one code |
| GlzBlob.NineBitsAreSlice | bento/loaders/glz.py:55-57 | the shift and mask of two bytes is the value of the nine bits that start there |
| GlzMeaning.TokenAdvances | bento/loaders/glz.py:30-81 | a token uses up bits and stays inside the blob; a reference stands for at least two bytes |
| GlzMeaning.LoopExpands | bento/loaders/glz.py:29-101 | from any state of the loop where the slot is enough, the loop writes what the recursive meaning says, and fails exactly when that fails |
| GlzMeaning.LoopComplete | bento/loaders/glz.py:84-100 | a run that returns 0 wrote all bytes if and only if the slot was enough |
| GlzExample.ShortOutputExample | bento/loaders/glz.py:84-100 | a blob for which the decoder returns 0 with three of four bytes |
| GlzMeaning.DecodeMeansExpand | bento/loaders/glz.py:22-104 | for every blob: where references nest one deep the decoder succeeds if and only if the meaning is defined and writes it; it never writes more than asked |
| GlzDecoder.DecodeRice | bento/loaders/glz.py:30-49 | the bit loop reads the Rice code, or runs out of the blob exactly when there is none |
| GlzDecoder.DecodeOffset | bento/loaders/glz.py:64-81 | the group loop reads the offset code |
| GlzDecoder.DecodeSymbol | bento/loaders/glz.py:52-57 | the table lookup, with its bounds check |
| GlzMeaning.TurnsAreTokens | bento/loaders/glz.py:29-101 | where the slot is enough the loop goes round once for each token, those of the places referred to included |
| GlzDecoder.Decode | bento/loaders/glz.py:22-104 | terminates on every blob, reads inside it, returns the code and writes the bytes of the loop's specification and nothing behind them, in as many turns |
| GlzEncoder.CanFinish | extra/glz/src/glz.rs:275-339 | from any point of a slice there are choices that finish it |
| GlzEncoder.LearnedIff | extra/glz/src/glz.rs:314-321 | after an immediate exactly the words that start with it, end by the latest reference and fit a reference are in the dictionary, at its place |
| GlzEncoder.ReferIff | extra/glz/src/glz.rs:275-299 | at the end of a slice a reference can be written exactly for the words of the dictionary it ends with |
| GlzEncoder.NoReferenceBeforeReference | extra/glz/src/glz.rs:307-331 | in front of a reference an immediate is forced |
| GlzEncoder.RepetitionExample | extra/glz/src/glz.rs:275-339 | for any two bytes the encoder may write the second half of abab as immediates and the first as a reference |
| GlzEncoder.ImmediateSound | extra/glz/src/glz.rs:307-321 | emitting an immediate keeps: all that is written, and all the dictionary points to, reads back with one slot and at most two tokens a byte |
| GlzEncoder.ReferSound | extra/glz/src/glz.rs:283-331 | emitting a reference keeps it too, and the bound on the tokens, since the word it stands for was learned at an immediate |
| GlzEncoder.EncodeSound | extra/glz/src/glz.rs:264-340 | a slice encoded by any choices reads back |
| GlzEncoder.PackedTableFor | bento/loaders/glz.py:51-57 | a table packed in nine-bit entries undoes the ranks it was made from |
| GlzEncoder.EncodeAllReads | extra/glz/src/glz.rs:454-503 | every slice of an archive, also one found inside another, reads back from the place given for it |
| GlzEncoder.ArchiveReads | extra/glz/src/glz.rs:454-503 | of a finished archive every slice reads back with one slot, meeting no number outside the table |
| GlzEncoder.GlzRoundTrip | extra/glz/src/glz.rs:264-340 | the round trip: for any table, slices and choices of the encoder the decoder returns 0 and writes exactly the slice |
| GlzEncoder.ArchiveIsLinear | extra/glz/src/glz.rs:384-391 | decoding any slice of an archive takes at most two turns for each of its bytes, and two tokens a byte in every place a reference sends it to and back |
| BlockDevice.InWindowReads | bento/loaders/bd.py:192-205 | a read inside one window returns the device's bytes |
| BlockDevice.ReadsRightIff | bento/loaders/bd.py:199-203 | a read is right for all devices if and only if it stays in one window |
| BlockDevice.CopiedFirst | bento/loaders/bd.py:199-203 | the first byte returned is that of the last part, which is the asked one if and only if there is one part |
| BlockDevice.OneByte | bento/loaders/bd.py:57-61 | the one-byte reads of the decoder are always inside one window |
| BlockDevice.Reader.Read | bento/loaders/bd.py:181-221 | terminates for every size; return code, the window left behind, the accesses made and the bytes in the caller's buffer are those of the specified read, from whatever window |
| BlockDevice.CachedReadFacts | bento/loaders/bd.py:181-221 | what that read does: the bounds check; without an error the window is the old one or a right one, and from a right one the caller gets the copy loop's bytes of the device; an error is that of the last access and leaves its junk in the window |
| BlockDevice.RightReads | bento/loaders/bd.py:192-218 | from a right window the loop copies as if straight from the device, part by part |
| BlockDevice.HitReads | bento/loaders/bd.py:193-205 | a read that lies in the window returns what the window holds, without an access |
| BlockDevice.MissReads | bento/loaders/bd.py:207-218 | one that lies in another window is one access, after which the window covers it, or keeps its place if that failed |
| BlockDevice.Reader.Refill | bento/loaders/bd.py:207-217 | a miss loads the aligned window around the byte, or leaves the device's junk under the old name |
| BlockDevice.WindowRightIff | bento/loaders/bd.py:181-228 | after any sequence of reads from an empty cache the window holds the device's bytes, for every junk the device may leave, if and only if it holds nothing or the last access went well |
| BlockDevice.StaleHit | bento/loaders/bd.py:193-218 | for any cached byte and any failing read elsewhere: the byte read again is what the failed read left, with return code 0 |
| BlockDevice.StaleHitExample | bento/loaders/bd.py:193-218 | a device and two reads for which that is not the device's byte |
| GlzBlockDecoder.ReadBit | bento/loaders/bd.py:57-66 | a bit through the cache is the bit of the blob on the device |
| GlzBlockDecoder.ReadSymbol | bento/loaders/bd.py:77-84 | the two-byte read gives the table entry when the entry lies in one window; across windows its last bit decides between literal and reference |
| GlzBlockDecoder.ReadRiceCode | bento/loaders/bd.py:54-75 | finds the Rice code of the blob on the device |
| GlzBlockDecoder.ReadOffsetCode | bento/loaders/bd.py:92-109 | finds the offset code of the blob on the device |
| GlzBlockDecoder.NextToken | bento/loaders/bd.py:54-109 | the token at a place is that of the addressable decoder |
| GlzBlockDecoder.Decode | bento/loaders/bd.py:43-132 | never writes past the bytes asked for; stops at the first device error with its code; with the table entries met in one window each, what is written is a beginning of the bytes the decoder of an addressable blob writes, and without an error result, output and turns are those of that decoder |
| GlzBlockDecoder.StaysInWindows | bento/loaders/bd.py:77-84 | if every table entry lies in one window, no run that stays inside the table meets one that does not |
| GlzBlockDecoder.ArchiveRunsInWindow | bento/loaders/bd.py:43-132 | so no slice of an encoded archive does, whatever the slices |
| GlzBlockDecoder.DecodeSlice | bento/loaders/bd.py:43-132 | the round trip over the device: for every archive whose table lies in the windows, the decoder returns 0 and writes exactly the slice, in at most two turns a byte |
| GlzTables.TableFitsIff | bento/loaders/bd.py:77-84 | every entry of a table lies in one window if and only if there are no more than a number given by the buffer size and the place of the table, or no matter how many where no entry starts at the end of a window |
| GlzTables.DefaultRoom | bento/loaders/bd.py:502-510 | for an aligned table and the default buffer that number is 14, and entry 14 crosses unless the block ends there |
| GlzTables.CrossingArchive | bento/loaders/bd.py:77-84 | for every size of table with an entry that crosses inside a block there is an archive whose slice the decoder cannot find |
| GlzTables.LoseSlice | bento/loaders/bd.py:43-132 | on that archive the decoder returns -EINVAL and writes nothing, without any device error, where the decoder of an addressable blob writes the slice |
| MpuRegions.OrAddsFields | bento/runtimes/armv7m_mpu.py:476-486 | the fields joined with OR share no bit, so the sum the model uses is the value written |
| MpuRegions.OrAddsNumber | bento/runtimes/armv7m_mpu.py:61-64 | the same for the address, the valid bit and the region number |
| MpuRegions.PairDecodes | bento/runtimes/armv7m_mpu.py:473-486 | for a memory that passes the checks the register pair selects the region, covers the memory's range and grants its modes if reading is among them and nothing otherwise (section B3.5.9 of the ARMv7-M Architecture Reference Manual) |
| MpuRegions.ModesGrantedIff | bento/runtimes/armv7m_mpu.py:476-486 | exactly the modes of a memory are granted if and only if it names no mode but with reading |
| MpuRegions.Switch | bento/runtimes/armv7m_mpu.py:55-68 | the loop leaves every managed slot holding its memory or disabled, and no other slot changed |
| MpuRegions.CallSlotCovers | bento/runtimes/armv7m_mpu.py:45-48 | the call region register covers its power of two bytes, with no access for any code and execute never |
| MpuRegions.ShownIsolates | bento/runtimes/armv7m_mpu.py:45-68 | with the call region and a box's memories in the MPU an access is allowed if and only if the last of the memories that contain the word grants it |
| MpuRegions.ApartMayAccess | bento/runtimes/armv7m_mpu.py:45-68 | where the memories do not overlap and name reading, that is to a word of one of the memories in one of its modes |
| MpuRegions.SwitchIsolates | bento/runtimes/armv7m_mpu.py:55-68 | in particular after a switch |
| MpuDispatch.OffsetDecodes | bento/runtimes/armv7m_mpu.py:949-957 | an emitted address decodes in the handler to its box, its jumptable entry and its flag, and is neither the return nor the abort address |
| MpuDispatch.OffsetEncodes | bento/runtimes/armv7m_mpu.py:184-190 | and every even address from the first import on is that of the box, entry and flag the handler takes it for |
| MpuDispatch.OffsetInjective | bento/runtimes/armv7m_mpu.py:949-957 | no two imports share an address |
| MpuDispatch.BoxOffsetDecodes | bento/runtimes/armv7m_mpu.py:1054-1066 | the same for calls from a box |
| MpuDispatch.FallibleInAddress | bento/runtimes/armv7m_mpu.py:119-124 | the bit the fault handler tests in the stacked address is that of the offset |
| MpuDispatch.CauseIff | bento/runtimes/armv7m_mpu.py:344-363 | in the call region the fault handler tells return, abort and call apart; outside it sees a fault except where the bound, which is the region's address, lets an address in |
| MpuDispatch.BoxCallsFit | bento/runtimes/armv7m_mpu.py:407-425 | the calls a box makes lie in the call region picked for the number of imports and exports |
| MpuDispatch.SystemCallsFitIff | bento/runtimes/armv7m_mpu.py:407-425 | the calls the system makes do if and only if the last of each box does |
| MpuDispatch.CallOutsideExample | bento/runtimes/armv7m_mpu.py:407-425 | two boxes for which one does not |
| MpuStack.CallerAtFrame | bento/runtimes/armv7m_mpu.py:264-274 | in every represented state the caller's record plus what is lent of its stack is the place of its frame: exact for the system, and for a box if and only if nothing is lent |
| MpuStack.RecordBelow | bento/runtimes/armv7m_mpu.py:172-182 | the record of a live domain is inside its stack and below all its frames |
| MpuStack.SameCallsForAnyLoans | bento/runtimes/armv7m_mpu.py:172-290 | two stacks that one state stands for have the same domains in the same order and the same activations of the system, whatever is lent |
| MpuStack.OneStack | bento/runtimes/armv7m_mpu.py:172-290 | a state and what is lent determine the stack: each domain's chain of frames is exactly its suspended activations in order |
| MpuStack.OneStackUnlent | bento/runtimes/armv7m_mpu.py:172-290 | with nothing lent the state alone does |
| MpuExamples.LoansDecideExample | bento/runtimes/armv7m_mpu.py:172-290 | a state that stands for two stacks when different words are taken to be lent, so that part is needed |
| MpuStack.CallPushes | bento/runtimes/armv7m_mpu.py:172-216 | a call pushes one activation: records and frames represent the longer stack |
| MpuStack.SystemCallEnters | bento/runtimes/armv7m_mpu.py:172-216 | a call of the system to import j of box i enters box i at entry j of its jumptable, at its stack pointer and with its return code; the whole state after it |
| MpuStack.BoxCallEnters | bento/runtimes/armv7m_mpu.py:172-216 | a call of a box to its import i enters the system at entry i of the system's jumptable for that box; the whole state after it |
| MpuStack.FirstCallEnters | bento/runtimes/armv7m_mpu.py:784-790 | the first call into a box that has been prepared starts at the top of its stack, with the code for thread mode on the process stack |
| MpuStack.CallKeepsFrames | bento/runtimes/armv7m_mpu.py:176-181 | a call writes no word of an older activation's frames |
| MpuStack.ReturnPops | bento/runtimes/armv7m_mpu.py:254-290 | a return to a domain nothing is lent of finds the frame of the call, with a return code, and pops one activation |
| MpuStack.ReturnPopsIff | bento/runtimes/armv7m_mpu.py:254-290 | a return goes on at the frame the caller saved, with its activation popped, if and only if nothing is lent of the caller's stack |
| MpuStack.ReturnLeaves | bento/runtimes/armv7m_mpu.py:254-290 | the whole state after a return: domain, place, code, both records, the results in the caller's frame, and nothing else changed |
| MpuExamples.LentReturnExample | bento/runtimes/armv7m_mpu.py:254-290 | a state in which four words are lent: the return goes on at other words and leaves no stack of calls |
| MpuStack.FaultResumes | bento/runtimes/armv7m_mpu.py:98-145 | without the fallible bit the system halts; with it the caller's record and place are those of a normal return and r0 the error; the box is uninitialised |
| MpuStack.FaultHooks | bento/runtimes/armv7m_mpu.py:98-107 | a box with an abort hook goes on in it with the error, uninitialised, and nothing else changes |
| MpuStack.FaultPops | bento/runtimes/armv7m_mpu.py:132-145 | the popped stack is represented if and only if the box had no older activation |
| MpuStack.FaultLeavesStackIff | bento/runtimes/armv7m_mpu.py:98-145 | the state after the fault stands for some stack of calls, with anything lent, if and only if the box had no older activation |
| MpuExamples.ReentryFaultExample | bento/runtimes/armv7m_mpu.py:98-145 | a state of a re-entered box after whose fault no stack of calls is left |
| MpuStack.WorkKeeps | bento/runtimes/armv7m_mpu.py:89-94 | code that leaves the words of the frames alone keeps the stack |
| MpuStack.MoveKeeps | bento/runtimes/armv7m_mpu.py:835-858 | moving a box's stack pointer for shared data keeps the stack, and changes what is lent by as much |
| MpuStack.PrepareKeeps | bento/runtimes/armv7m_mpu.py:784-790 | preparing a box with no activation keeps the stack |
| MpuStack.OnlyActiveHasNoCode | bento/runtimes/armv7m_mpu.py:200-201 | among the domains with an activation, a zero return code marks exactly the running one |
| MpuRuns.NextRepresents | bento/runtimes/armv7m_mpu.py:98-290 | every call, return, fault, push, pop, preparation and stretch of domain code keeps the representation of the stack |
| MpuRuns.ReachableIsStack | bento/runtimes/armv7m_mpu.py:98-290 | every state of every run represents the stack that the steps make, alternating between system and boxes, with every chain exact |
| MpuRuns.ReachedStackIsTheOnlyOne | bento/runtimes/armv7m_mpu.py:98-290 | from reset, the state any run reaches represents that stack and, with what the run has lent, no other |
| MpuRuns.ResetIsEmptyStack | bento/runtimes/armv7m_mpu.py:784-790 | the state after reset represents the empty stack |
| MpuRuns.RunRestores | bento/runtimes/armv7m_mpu.py:172-290 | every well-bracketed run, of any depth and with re-entry, ends with the active domain, the stack pointers, the boxes' callers and the older frames as they were; the return codes are those of the last traps |
| MpuRuns.BodyLeavesCaller | bento/runtimes/armv7m_mpu.py:258-262 | every body that ends leaves its caller's record at the frame of the call |
| MpuRuns.CallDelivers | bento/runtimes/armv7m_mpu.py:172-216 | whichever import the trapped address is that of, its box and its jumptable entry are entered, with r0-r3 and r12 of the caller; after any body the caller goes on at its own return address with the callee's r0-r3 |
| MpuRuns.CodeIsLastTrap | bento/runtimes/armv7m_mpu.py:258-262 | a run leaves in a record the code of the last trap its domain returned with, or the code it held |
| MpuRuns.OwnCodeIff | bento/runtimes/armv7m_mpu.py:258-274 | a call returns with the caller's own code if and only if the body did not enter the caller again or its last return in there carried that code |
| MpuRuns.SameCodeKeeps | bento/runtimes/armv7m_mpu.py:258-262 | if a domain always traps with the same return code, its codes are as before |
| MpuExamples.ReentryCodeExample | bento/runtimes/armv7m_mpu.py:258-274 | a state and a run in which a box calls with one code and its call returns with another |
| MpuMachine.Machine.InitMpu | bento/runtimes/armv7m_mpu.py:38-53 | the first time, the MPU on and region 0 covering the call region, for nobody and execute never; later no change |
| MpuMachine.Machine.CallRegionTraps | bento/runtimes/armv7m_mpu.py:38-68 | from then on region 0 covers exactly the call region and decides for every address in it that no memory of the running box contains, and for all while the system runs: a call traps |
| MpuMachine.Machine.ActiveIsIsolated | bento/runtimes/armv7m_mpu.py:38-76 | whenever a box runs it is unprivileged and has access to no word but those of its memories, and there to what the last memory that contains the word grants |
| MpuMachine.Machine.SwitchMpu | bento/runtimes/armv7m_mpu.py:55-76 | the registers hold the regions of the new domain, and boxes run unprivileged |
| MpuMachine.Machine.CallSetup | bento/runtimes/armv7m_mpu.py:172-216 | the in-place handler enters the function the trapped address is that of, computes the specified new state and keeps MPU and active domain together |
| MpuMachine.Machine.ReturnSetup | bento/runtimes/armv7m_mpu.py:254-290 | the same for returns |
| MpuMachine.Machine.FaultSetup | bento/runtimes/armv7m_mpu.py:98-145 | the same for faults, and the box is uninitialised in every case |
| MpuMachine.Machine.Push | bento/runtimes/armv7m_mpu.py:835-847 | NULL and no change, or the stack pointer lowered by the rounded words |
| MpuMachine.Machine.Pop | bento/runtimes/armv7m_mpu.py:851-859 | the stack pointer raised by the rounded words |
| Carving.MinusExactIff | bento/box.py:188-209 | the bytes of a slice minus a region are exact if and only if the region is empty, misses it or reaches its top |
| Carving.MinusExample | bento/box.py:188-209 | a slice and a region in its middle for which what is left reaches behind the slice |
| Carving.MinusNotEmpty | bento/box.py:188-209 | no empty region is left |
| Carving.CarveConserves | bento/box.py:1290-1338 | at every address what was free is afterwards placed or free, and never both, for any list of children |
| Carving.PlacedDisjoint | bento/box.py:1319-1335 | no two placed children overlap |
| Carving.PlacedInParent | bento/box.py:329-337 | each child lies within one of the parent's slices, of a mode that includes its own |
| Carving.PlacedTightest | bento/box.py:340-351 | each child lies at the top of one of the slices left that have its flags and its size, one with the fewest further flags and of those the highest |
| Carving.CarveFails | bento/box.py:1299-1314 | placing fails only at a child that no slice left can take |
| Carving.Parent.Remove | bento/box.py:352-357 | the slices after one subtraction |
| Carving.Parent.PlaceAll | bento/box.py:1291-1338 | the loop over the children computes the specified placement and slices, or fails exactly when that fails |
| Roommates.ShareIsSymmetric | bento/box.py:184-186 | sharing memory goes both ways |
| Roommates.OverlapIsSharedByte | bento/box.py:184-186 | two positive regions overlap if and only if they share a byte |
| Roommates.Declared | bento/box.py:1267-1288 | the declared roommates, accepted if and only if they are mutual and the box is idempotent |
| Roommates.CheckMemory | bento/box.py:1320-1335 | one memory's overlaps: accepted if and only if all are between idempotent boxes, and all found |
| Roommates.FindRoommates | bento/box.py:1265-1335 | the whole configuration is accepted if and only if it is acceptable, and then each box's roommates are found without repetition |
| Roommates.AcceptableIff | bento/box.py:1267-1335 | acceptable said in bytes: boxes that name others are named by them and may lose their state, and so may any two with a byte in common |
| Roommates.FoundIff | bento/box.py:1267-1335 | the roommates of a box are those it names and those it has a byte in common with, each once |
| Roommates.MatesAreMutual | bento/box.py:1334-1335 | with explicit addresses being roommates goes both ways |
| Roommates.NeverBothUp | bento/runtimes/armv7m_mpu.py:758-829 | in every sequence of uninterrupted bring-ups, failures, take-downs and faults no two boxes that share memory are both marked initialised |
| Roommates.InitIsBothMoments | bento/runtimes/armv7m_mpu.py:758-822 | a bring-up that nothing interrupts is its beginning followed by its finish |
| Roommates.MarkHistory | bento/runtimes/armv7m_mpu.py:758-829 | in every interleaving a box is marked if and only if it was at the start or finished, and has not been taken down since |
| Roommates.SafeThroughoutIff | bento/runtimes/armv7m_mpu.py:758-829 | in every interleaving of bring-ups, take-downs and faults no two boxes that share memory are ever both marked, if and only if none is brought up inside the bring-up of the other and left up until that finishes |
| Roommates.NestedBringUp | bento/runtimes/armv7m_mpu.py:768-821 | a run of a nested bring-up that ends with both marked |
| Roommates.Marks.BeginBox | bento/runtimes/armv7m_mpu.py:768-780 | the loop takes down exactly the roommates |
| Roommates.Marks.TakeDownBox | bento/runtimes/armv7m_mpu.py:825-829 | clobber clears the mark of the box and no other |
| Roommates.Marks.InitBox | bento/runtimes/armv7m_mpu.py:758-822 | the generated init: the new marks, and 0 or the code of whichever of loading and starting failed first |
| FnRoundTrip.ParsedIsWf | bento/box.py:424-446 | every accepted type has known primitives and modifiers, proper names, at most one star, and const or mut exactly where it points |
| FnRoundTrip.RefusedIff | bento/box.py:431-446 | of the arguments that can be written exactly those are refused that have two stars, modifiers on no pointer or array, a pointer or array with neither const nor mut, or both |
| FnRoundTrip.PrimitiveIff | bento/box.py:364-369 | which single words are types |
| FnRoundTrip.WordCharIff | bento/box.py:372 | the characters of names, one by one |
| FnRoundTrip.SpaceIff | bento/box.py:391-402 | and the spaces between them |
| FnRoundTrip.LexArg | bento/box.py:502-510 | the characters of a printed argument fall into its tokens, whatever follows |
| FnRoundTrip.ParseArgTokens | bento/box.py:371-422 | the tokens of a printed argument parse as the argument |
| FnRoundTrip.NameInFrontText | bento/box.py:395-408 | `name: type` means the same as the name in its other place, and is refused if there is one there too |
| FnRoundTrip.SizeInFront | bento/box.py:378-408 | stars and size may come in front of the name |
| FnRoundTrip.SizeSpellings | bento/box.py:412-420 | sizes in other bases, and which numbers are refused |
| FnRoundTrip.PrintedParses | bento/box.py:665-675 | printing a function type and parsing the text gives the same type, for any order of modifiers, if and only if no constant size is zero |
| FnRoundTrip.SpellingsParse | bento/box.py:545-580 | a list may be in parentheses or not and have a comma at its end or not, on both sides of the arrow |
| FnRoundTrip.TextExample | bento/box.py:665-675 | a function type and its text, letter for letter |
| FnBinding.RebuiltIff | bento/box.py:785-807 | building a description again from its text succeeds if and only if no argument left takes its size from a bound one |
| FnBinding.ConstructedIff | bento/box.py:616-631 | of the types that can be written the constructor refuses exactly those with a name used twice, a size that no argument has as its name, or a result with the size of an argument |
| FnBinding.RebuiltUnbound | bento/box.py:785-807 | with nothing bound it always succeeds, and gives the same description if and only if no constant size is zero |
| FnBinding.BoundSizeExample | bento/box.py:797-799 | a function for which it fails |
| FnBinding.IndexOfIff | bento/box.py:762-763 | the place of a size's argument is that of the last one of its name |
| FnBinding.SameTypeIff | bento/box.py:761-774 | an export and an import are the same type, up to names, if and only if the export passes the check against the import, their counts and `noreturn` agree, and the export has a size wherever the import names one |
| FnBinding.NoreturnExample | bento/box.py:761-774 | an export that returns passes against an import that must not |
| FnBinding.DroppedSizeExample | bento/box.py:769-772 | a pointer without a size passes against one whose size another argument gives, not the other way round |
| FnBinding.NothingFitsAll | bento/box.py:764-766 | a function without arguments or results is compatible with every other, so the counts matter |
| Linking.SurvivesIff | bento/box.py:1441-1457 | of the exports of a name the strong one stays, and of weak ones the last |
| Linking.TwoAccepted | bento/box.py:1443-1456 | of two exports of a name one has to be weak and the second has to be compatible with the first |
| Linking.OneOutcome | bento/box.py:1472-1505 | whatever the targets are, there is an outcome |
| Linking.ResolvesOneWay | bento/box.py:1472-1505 | and only one: the targets determine it |
| Linking.SilentlyUnlinkedIff | bento/box.py:1488-1499 | an import that must be linked is left without a link if and only if it has several targets and all are weak |
| Linking.ChosenSurvives | bento/box.py:1455-1457 | the chosen export survives the reduction of its list, whenever that comes |
| Linking.ReducingKeepsChoice | bento/box.py:1441-1512 | reducing a child's exports first would not change a choice |
| Linking.ReducingLate | bento/box.py:1488-1499 | but it would make one where two weak exports of a name in a child now tie |
| Linker.LinkedSurvives | bento/box.py:1472-1512 | the export an import picks, from any near box, is one that survives there |
| Linker.LinkedExportsStay | bento/box.py:776-783 | after linking a tree, every link leads to an export of the import's name and a compatible type that its own box, the box around it or one inside it still offers, and scopes on either side name the other's box |
| Linker.OnlyFitIsLinked | bento/box.py:1471-1508 | the other way round, an import that fits one export only, by name and scopes, is linked to it |
| Linker.StrongFitIsLinked | bento/box.py:1488-1499 | and one that fits a strong export to that |
| Linker.TwoStrongFail | bento/box.py:1492-1496 | with two of them linking fails |
| Linker.WeakOnesTie | bento/box.py:1488-1499 | with none, and two weak ones that are left in their boxes, it stays without a link and linking goes on |
| Linker.NothingFits | bento/box.py:1482-1486 | one that fits none stays without a link if it is weak, and otherwise linking fails |
| Linker.ScopeFoundIff | bento/box.py:1460-1469 | an export that is left has to name no scope or that of its own box, the box around it or one inside it |
| Linker.Insert | bento/box.py:1457 | insertion keeps the list sorted by name, without repetition and with the same members |
| Linker.LeqIff | bento/box.py:686-687 | the order of names is that of a dictionary |
| Linker.Entries | bento/box.py:1441-1456 | the dictionary loop is accepted if and only if no two strong or incompatible exports of a name meet, and holds the specified entries |
| Linker.Linkables | bento/box.py:1472-1480 | exactly the linkable exports of one box, once each |
| Linker.Resolve | bento/box.py:1482-1499 | dropping weak targets decides as specified |
| Linker.Linker.Reduce | bento/box.py:1441-1457 | one export of each name is left, sorted; refused if and only if not acceptable |
| Linker.Linker.SortImports | bento/box.py:1425-1439 | imports of one name have to be compatible; all are kept, sorted |
| Linker.ImportEntryIs | bento/box.py:1434-1437 | the import that others of the name are compared with is the last one the box itself declares, or else the first |
| Linker.ImportsAgreeNext | bento/box.py:1426-1433 | the next import of the name has to fit it |
| Linker.Linker.FindTargets | bento/box.py:1472-1480 | the targets, from the reduced exports of the box and its parent and all exports of its children |
| Linker.Linker.LinkImports | bento/box.py:1471-1508 | each import ends where its targets say, each link is recorded once on both ends, other links are untouched; fails if and only if some import cannot be resolved |
| Linker.Linker.LinkBox | bento/box.py:1419-1508 | one box: succeeds if and only if its imports, exports and scopes are in order and all imports resolve |
| Linker.Linker.Link | bento/box.py:1419-1512 | the whole tree: succeeds if and only if every box does, and then every box is as specified, as a function of the declared exports alone |
| Numerals.NumeralReadsBack | bento/glue/write_glue.py:190-204 | a numeral reads back as its number and has no superfluous leading digit, in every base up to 16 |
| PrintfNumbers.TextLength | bento/glue/write_glue.py:161-169 | the text has max(width, size) characters |
| PrintfNumbers.ReadsBackIff | bento/glue/write_glue.py:98-232 | what is printed reads back, in hexadecimal for `%x` and in decimal otherwise, as the word that was passed, in two's complement for `%d`, for every width and flag, if and only if it is not a negative number with zeros in front |
| PrintfNumbers.PaddingPlace | bento/glue/write_glue.py:161-243 | spaces come behind the number with the left flag, otherwise spaces or zeros in front of it |
| PrintfNumbers.ZeroPaddedExample | bento/glue/write_glue.py:158-232 | -42 with five places and zeros prints as 00-42, which is no number |
| PrintfNumbers.HexShift | bento/glue/write_glue.py:191 | shifting by 4*i divides by 16 i times |
| PrintfNumbers.NumeralDigit | bento/glue/write_glue.py:219-224 | the digit computed for a place is the numeral's |
| PrintfNumbers.CountDigits | bento/glue/write_glue.py:107-112 | the counted size is the length of the numeral, also for zero |
| PrintfNumbers.PutDigits | bento/glue/write_glue.py:189-231 | the digit loops write the numeral, most significant digit first |
| PrintfNumbers.Print | bento/glue/write_glue.py:158-245 | a writer that accepts everything gets the whole text and the count grows by its length; with any other, a beginning of the text, all of it unless the writer stopped it |

## Left out

- `__wrap_calloc`, `__wrap_realloc`, `_sbrk`: thin wrappers around the heap.
- HeapAllocator.Allocator.Free: the pointer is NULL or a live payload; for any other the source only compares two words.
- Heap words are naturals below 2^32 with the top bit as the mark; `__builtin_wasm_memory_size` is a parameter.
- Assembly stubs, exception entry and exit, saved core and floating point registers, privileged faults and real MPU timing: handlers are single steps over a word memory.
- Faults while the system is active, user abort hooks after they are entered, and bringing up a box that has a live activation.
- MpuStack.CallPushes: assumes an emitted address, room for the frame on the callee's stack, and an exception frame below the record's stack pointer.
- MpuStack.ReturnPops: assumes the exception frame of the returning domain on its own stack, and that what was lent of the stack of the box returned to has been given back; `ReturnPopsIff` says that without the latter it is false.
- MpuStack.OneStack: what is lent is known to the system code that pushed it and not to the records, so it is given (`LoansDecideExample`).
- MpuRuns.NextRepresents: pops at most what has been pushed, where the source only asserts that the stack's end is not passed.
- MpuMachine.Machine.CallSetup: in states that represent a stack of calls, which are the reachable ones.
- MpuMachine.Machine.ReturnSetup: likewise; its branch for a caller without a return code is shown never to be taken there.
- MpuMachine.Machine.FaultSetup: likewise, for a fault while a box runs.
- MpuMachine.Machine.InitMpu: assumes that after reset no MPU region is enabled.
- MpuMachine.Machine.Pop: the assertion in the source is a precondition.
- MpuRuns.RunRestores: the return codes and the system's `caller` are stated as what they become, since they are not always restored.
- GlzDecoder.Decode: offsets, symbols and the Rice count are unbounded naturals; wrap-around at 32 (or 16) bits is not modelled.
- GlzEncoder.EncodeSound: the ratio that decides between immediate and reference is modelled as any choice, so the round trip holds for the source's heuristic; slices come sorted and without duplicates, as the source makes them; the choice of k and table is not modelled.
- GlzBlockDecoder.Decode: the size is the one passed in. The loader rounds it up to the read size before (bento/loaders/bd.py), which asks for more than the slice.
- BlockDevice.Reader.Read: wrap-around of 32-bit addresses is not modelled.
- Roommates.SafeThroughoutIff: clobbering and faults are one event, which clears a mark; a beginning is the part of the init behind its check of the mark.
- Loaders for several regions and file systems, and metadata headers: I/O.
- Carving.CarveConserves: for automatically placed children of positive size with the noop loader; mixing explicit and automatic addresses is left out, and so are alignment and the `memory` constraint.
- The address returned by the forward direction of `Memory.consume`, which later stages do not place by.
- Roommates.FindRoommates: children with explicit addresses.
- FnTypes: characters are ASCII; a regular expression match is modelled as splitting into tokens and parsing those.
- FnBinding.RebuiltIff: bound values, scopes, aliases and documentation are copied by the source and not modelled; the limit of four arguments is switched off in these calls.
- Linker.Linker.Link: failed assertions are the result `false`; a failed name lookup in the compatibility check counts as incompatible, since either stops linking. The numbering functions attached afterwards are left out.
- Linker.Insert: stands for Python's `sorted`; the order of entries of one name in different scopes is not stated.
- PrintfNumbers.Print: one parsed directive. Parsing of formats, `%c` and `%s` are left out, and so is a writer that accepts less than offered without an error; the most negative 32-bit number, whose negation C leaves undefined, is taken to wrap.
- Makefile, linker script, C and Rust text generation, command line, wasm runtimes and examples.
