# Feron runtime: a Dafny model

Feron is a hobby operating system for x86-64. This project models five parts of it and proves what they promise:

- **The heap** of the C++ runtime: `malloc`, `free` and `realloc` over one flat region. `HeapModel` is the heap as a state machine over a tiling of 8-byte cells, `HeapTheorems` says what its steps mean for clients, `HeapLayout` and `Words` say how a state lies in memory, `Heap` is the code over a byte array, method by method, and `HeapClient` runs any sequence of client calls on it.
- **One-time initialisation guards and the atexit table** (`Guard`, `Atexit`), against sections 3.3.2 and 3.3.5.3 of the Itanium C++ ABI.
- **UTF-8 strings** (`Utf8`, `Utf8Text`, `FeronString`, `StringSearch`, `StringSplit`, `Utf8Strings`): byte walks against sequences of Unicode scalar values (section 3 of RFC 3629). The structural theory is about any code whose lead byte announces its length, and UTF-8 is proved to be one.
- **The page-frame bitmap and the Multiboot2 walk** that feeds it (`PageFrames`, `Multiboot`; section 3.6 of the Multiboot2 Specification).
- **The keyboard ring buffer and line reader** (`Keyboard`).

The heap, the page allocator, the atexit table, the string iterator and the keyboard driver are classes whose methods store in place, as the source does. A method is proved against a specification function or the abstract state; the lemmas are about that function or state. Ghost parameters of the heap methods name the block or list position the pointer argument stands for. Pointers are numbers, null is 0; in `Multiboot` they are offsets from the start of the information. `size_t` wrap-around is written out in `AlignUp` and `TotalNeeded`, 64-bit address wrap-around in `PageFrames.End`, `Base` and `Init`.

`dafny verify dfyconfig.toml` checks everything.

## What turned out to be false

Each of these keeps the code as it is, says exactly when the code does what its callers expect, covers every input, and is shown on a concrete one.

- The first `malloc` ever made computes its size and its payload address before the header size is set. Whenever the heap is large enough it returns the address of the block's own size word, on a block that can be smaller than the smallest one, and `free` ignores that pointer: `Heap.KernelHeap.FirstMalloc`, `HeapModel.FirstNeed`. What it leaves behind is a working heap exactly when it returned null or the block has at least the smallest size, and then everything below holds of the calls that follow. With the header size set a block has room for its request unless the request is one of the last 55 values of `size_t`: `HeapModel.RequestFits`, `HeapModel.LargestRequest`.
- `malloc` on an empty free list rebuilds the heap under the live blocks: `HeapTheorems.MallocSparesTheLive`; two requests on the smallest heap there is show it: `HeapTheorems.SecondMallocTakesTheLive`.
- A thread waiting for a guard comes back exactly when a release has happened. After `__cxa_guard_abort` it therefore goes on waiting, whatever the other threads do, until some newcomer initialises and releases; it never initialises itself: `Guard.WaiterReturnsIff`, `Guard.WaitsWithoutRelease`, `Guard.StrandedForEver`.
- `pfa::init` rounds the end of a non-usable range down. Behind the first 4096 pages, a page starts out reserved exactly when some non-usable entry covers its end: `PageFrames.ReservedExactly`. A page that is only half usable can so start out free, `PageFrames.PartialPageStartsFree`, and so can one that no entry mentions, `PageFrames.HoleStartsFree`.
- `parse` divides by the announced entry size but `pfa::init` steps by 24 bytes. It meets the announced entries exactly when the announced size is 24 or there is at most one entry: `Multiboot.StrideAgrees`, with a map on which it does not, `Multiboot.StrideDiffers`. Every byte read is still inside the tag: `Multiboot.EntriesReadable`.

## Model

| member | source | states |
|---|---|---|
| HeapModel.RequestFits | source/impl/cpp_runtime.cpp:147-150 | once the header size is set, a block of the computed size has room for header, request and footer exactly when the request is at most 2^64 - 56 |
| HeapModel.LargestRequest | source/impl/cpp_runtime.cpp:147-150 | the largest request wraps to the smallest block |
| HeapModel.OneBlockFor | source/impl/cpp_runtime.cpp:147-150 | there is one such number of bytes for a request |
| HeapModel.TotalNeededIs | source/impl/cpp_runtime.cpp:43-45 | for either header size, exactly that number as long as the additions do not wrap, otherwise the smallest block |
| HeapModel.NeedInCells | source/impl/cpp_runtime.cpp:147-150 | every request becomes whole 8-byte cells: the least multiple of 16 bytes with room for header, request and footer, 56 when that is less, and 56 when the request wraps |
| HeapModel.FirstNeed | source/impl/cpp_runtime.cpp:147-150 | with the header size still 0 the block has whole cells, three at least, the least multiple of 16 bytes for request and footer, and is smaller than the smallest block exactly for requests up to 40 and from 2^64 - 23 on |
| HeapModel.FirstFit | source/impl/cpp_runtime.cpp:154-187 | the index found is the first on the list whose block is large enough; all before it are too small |
| HeapModel.InitialInv | source/impl/cpp_runtime.cpp:124-136 | the heap after initialisation is tiled, coalesced and listed |
| HeapModel.PlaceInv | source/impl/cpp_runtime.cpp:157-181 | handing out a block, cut or whole, keeps tiling, coalescing and the list of exactly the free blocks |
| HeapModel.JoinTiles | source/impl/cpp_runtime.cpp:199-209 | two neighbouring blocks made one still tile the heap |
| HeapModel.PrevOf | source/impl/cpp_runtime.cpp:97-106 | the block in front of an address is unique, which is what reading its footer relies on |
| HeapModel.HasPrevBlock | source/impl/cpp_runtime.cpp:97-106 | every block but the first has a block in front of it |
| HeapModel.MergeNextKeeps | source/impl/cpp_runtime.cpp:196-202 | merging with the block behind keeps the invariant except for the block being freed, which then has no free block behind it |
| HeapModel.MergePrevKeeps | source/impl/cpp_runtime.cpp:204-213 | merging with the block in front and listing the result restores the whole invariant |
| HeapModel.FreeInv | source/impl/cpp_runtime.cpp:192-214 | free of any live block keeps the invariant: exact tiling, no two free neighbours, each free block listed once |
| HeapModel.MallocInv | source/impl/cpp_runtime.cpp:141-190 | malloc keeps the invariant for every request and every list |
| HeapTheorems.Canonical | source/impl/cpp_runtime.cpp:141-214 | two heaps that keep the invariant are tiled alike if and only if they have the same live blocks |
| HeapTheorems.FirstFitMalloc | source/impl/cpp_runtime.cpp:147-189 | null exactly when no free block is large enough; otherwise the earliest on the list, cut to exactly what is needed unless less than a smallest block would be left, a remainder taking its place on the list |
| HeapTheorems.MallocLive | source/impl/cpp_runtime.cpp:154-189 | malloc adds one free block to the live ones and changes no other |
| HeapTheorems.FreeLive | source/impl/cpp_runtime.cpp:192-214 | free removes one block from the live ones and changes no other, whatever merges |
| HeapTheorems.MallocSparesTheLive | source/impl/cpp_runtime.cpp:129-135 | malloc hands out nobody's block and leaves all live blocks alone exactly when the free list is not empty on entry |
| HeapTheorems.SecondMallocTakesTheLive | source/impl/cpp_runtime.cpp:129-135 | on the smallest heap kernel_heap_init accepts, of 64 bytes, a legal run leaves the list empty with its one block live, and the next request is given the same block |
| HeapTheorems.FreeList | source/impl/cpp_runtime.cpp:192-214 | after free the block that now holds the freed cells heads the list, and behind it stand the old entries that are still blocks, in their old order |
| HeapTheorems.FreeAfterPlaceList | source/impl/cpp_runtime.cpp:157-214 | freeing a block just handed out leaves the list with that block moved to the head |
| HeapTheorems.FreeUndoesMalloc | source/impl/cpp_runtime.cpp:157-214 | free of a malloc result restores the exact tiling in both branches; only list order changes, the block moving to the head |
| HeapTheorems.OneOwner | source/impl/cpp_runtime.cpp:59-106 | every cell of the heap lies in exactly one block |
| HeapTheorems.PayloadIsPrivate | source/impl/cpp_runtime.cpp:87-121 | a payload cell is in no other block and is no header, list link or footer |
| HeapTheorems.RunInv | source/impl/cpp_runtime.cpp:141-214 | every legal run of malloc and free keeps the invariant |
| HeapTheorems.RunsAreCanonical | source/impl/cpp_runtime.cpp:141-214 | runs that end with the same live blocks end with the same tiling, in whatever order they freed; with nothing live the heap is one block |
| HeapTheorems.NothingIsLost | source/impl/cpp_runtime.cpp:141-214 | as long as no malloc meets an empty list, the live blocks are exactly what clients were given and have not returned |
| Words.ToNatFromNat | source/impl/cpp_runtime.cpp:59-63 | a stored 64-bit little-endian word reads back |
| Words.ByteOf | source/impl/cpp_runtime.cpp:59-63 | the i-th byte of a stored word is its i-th digit to base 256 |
| Words.StoredWord | source/impl/cpp_runtime.cpp:80-91 | storing eight bytes changes one word and no other |
| Words.SameWordsSameBytes | source/impl/cpp_runtime.cpp:80-121 | a range whose words are unchanged has unchanged bytes |
| HeapLayout.LinkCellsInside | source/impl/cpp_runtime.cpp:59-63 | list links are never size words, footers or somebody's payload |
| HeapLayout.UnlinkedLinks | source/impl/cpp_runtime.cpp:109-115 | the stores of the removal leave a doubly linked list of the other blocks in order, and touch link words only |
| HeapLayout.PushedLinks | source/impl/cpp_runtime.cpp:116-121 | the stores of the insertion leave a doubly linked list with the block at the head |
| HeapLayout.RetagSizes | source/impl/cpp_runtime.cpp:80-91 | setting the flag and rewriting the footer gives the size words of the retagged tiling |
| HeapLayout.JoinSizes | source/impl/cpp_runtime.cpp:199-209 | the two stores of a merge give the size words and footer of the merged tiling |
| HeapLayout.SplitStoresAre | source/impl/cpp_runtime.cpp:161-175 | the stores of the split, in order, change exactly the words the split means to |
| HeapLayout.SplitLayout | source/impl/cpp_runtime.cpp:161-175 | after the split memory encodes the cut tiling, the remainder in the place of the block on the list |
| HeapLayout.SplitSparesPayload | source/impl/cpp_runtime.cpp:161-175 | a split writes into nobody's payload |
| Heap.PayloadStoreKeeps | source/impl/cpp_runtime.cpp:59-63 | a store into a live payload breaks neither size words nor list |
| Heap.PatchedContents | source/impl/cpp_runtime.cpp:59-63 | a byte stored into one payload shows in that payload and in no other |
| Heap.ContentsKept | source/impl/cpp_runtime.cpp:141-214 | a step that spares the words of a payload keeps its bytes |
| Heap.CopyRelocates | source/impl/cpp_runtime.cpp:252-263 | allocating, copying and freeing together move the leading bytes and touch no other block |
| Heap.KernelHeap.constructor | source/impl/cpp_runtime.cpp:32-38 | kernel_heap_init sets a heap up exactly for a non-null region of at least 64 bytes, and leaves it as allocator_init wants it |
| Heap.KernelHeap.AllocatorInit | source/impl/cpp_runtime.cpp:124-136 | nothing before kernel_heap_init; otherwise sets the header size to 32, leaves a non-empty list alone with every byte, and makes an empty one a single block covering the heap |
| Heap.KernelHeap.HeaderOf | source/impl/cpp_runtime.cpp:77-91 | what header and footer of a block read as |
| Heap.KernelHeap.NextPhys | source/impl/cpp_runtime.cpp:92-96 | the next block in memory, null after the last |
| Heap.KernelHeap.PrevPhys | source/impl/cpp_runtime.cpp:97-106 | the block in front, found through its footer, null before the first |
| Heap.KernelHeap.RemoveFromFreelist | source/impl/cpp_runtime.cpp:109-115 | memory then encodes the list without the entry, all sizes and all payloads unchanged |
| Heap.KernelHeap.InsertIntoFreelist | source/impl/cpp_runtime.cpp:116-121 | memory then encodes the list with the block at the head, all sizes and all payloads unchanged |
| Heap.KernelHeap.AbsorbNext | source/impl/cpp_runtime.cpp:196-202 | memory then encodes the merge with the block behind, or is unchanged |
| Heap.KernelHeap.AbsorbPrev | source/impl/cpp_runtime.cpp:204-213 | memory then encodes the merge with the block in front and the block on the list |
| Heap.KernelHeap.CoalesceAndFree | source/impl/cpp_runtime.cpp:192-214 | the in-place stores refine the free step and write into no other payload |
| Heap.KernelHeap.FindFit | source/impl/cpp_runtime.cpp:154-187 | the walk over the in-memory links ends at the first fit, or null |
| Heap.KernelHeap.CutBlock | source/impl/cpp_runtime.cpp:160-175 | memory then encodes the cut block and its listed remainder |
| Heap.KernelHeap.Take | source/impl/cpp_runtime.cpp:158-181 | memory then encodes the block handed out, cut or whole |
| Heap.KernelHeap.FirstMalloc | source/impl/cpp_runtime.cpp:141-190 | the first call: null before kernel_heap_init, or on a valid unused heap that is too small; otherwise the address of the block's own size word at the heap start, a pointer free ignores. If the block has at least the smallest size the heap is valid and in the state the placement step gives; if not, the memory holds no tiling at all |
| Heap.KernelHeap.FirstPlaced | source/impl/cpp_runtime.cpp:158-181 | the words the first call leaves encode the placed block and its listed remainder whenever the block has at least the smallest size |
| Heap.KernelHeap.Malloc | source/impl/cpp_runtime.cpp:141-190 | on any valid heap, which includes the one after a first call that took no too small block: null exactly when every free block is smaller than the least multiple of 16 for the request, or 56, otherwise a block wasting less than 56 bytes; it refines the malloc step, and on a non-empty list every other payload keeps its bytes and failure changes nothing |
| Heap.KernelHeap.Free | source/impl/cpp_runtime.cpp:216-233 | refines the free step; every other payload keeps its bytes; null and pointers in front of the first possible payload do nothing |
| Heap.KernelHeap.StorePayload | source/impl/cpp_runtime.cpp:59-63 | a client write changes the one byte it names and keeps the invariant |
| Heap.KernelHeap.OldSize | source/impl/cpp_runtime.cpp:255-257 | the capacity computed from the header is the payload length |
| Heap.KernelHeap.CopyPayload | source/impl/cpp_runtime.cpp:261 | the copy loop replaces the leading bytes of one payload by another's |
| Heap.KernelHeap.Realloc | source/impl/cpp_runtime.cpp:249-264 | malloc, copy and free as one step: on success a new live block starts with the first min(old capacity, new size) bytes, the old one is gone, all others are untouched; on failure nothing changed; size 0 frees, on any list |
| HeapClient.SeesAlloc | source/impl/cpp_runtime.cpp:141-190 | an allocation keeps all that clients know about their blocks |
| HeapClient.SeesStore | source/impl/cpp_runtime.cpp:59-63 | a store adds one fact and keeps the others |
| HeapClient.SeesResize | source/impl/cpp_runtime.cpp:249-264 | a successful realloc keeps what is known below the new size |
| HeapClient.ActSound | source/impl/cpp_runtime.cpp:141-264 | each client action keeps that |
| HeapClient.RunIsSound | source/impl/cpp_runtime.cpp:141-264 | over any run that meets no empty list every slot in use is a live block of its own with the room last asked for, so stores inside it succeed |
| HeapClient.StoredIsKnown | source/impl/cpp_runtime.cpp:141-264 | what clients are said to know after a run is what was stored last and not touched since |
| HeapClient.Client.Perform | source/impl/cpp_runtime.cpp:141-264 | over any sequence of malloc, free, realloc and stores, up to an allocation from an empty list: the heap, the slots and every answer are those of the run of the steps, every byte reads back as last stored until its block is released or resized to less, and older blocks are untouched |
| Guard.StepInv | source/impl/cpp_runtime.cpp:305-315 | every atomic step of any thread keeps: the word tells the phase, exactly the holder is initialising |
| Guard.EveryRunIsAllowed | source/impl/cpp_runtime.cpp:305-315 | every interleaving of any number of threads is a history of the protocol, the guard is 0, 2 or 3, at most one thread initialises |
| Guard.EveryStepAnswers | source/impl/cpp_runtime.cpp:305-315 | after any interleaving: an acquire of a released guard returns 0 to that thread at once and any other goes on to try; a try makes its thread the initialiser, returning 1, exactly when nobody is and nobody has released, and otherwise waits; a waiting thread returns 0 exactly after a release; release and abort end the initialisation; no other thread moves |
| Guard.NobodyIsStuck | source/impl/cpp_runtime.cpp:305-315 | wherever a thread stands it can take a step |
| Guard.AllowedHistory | source/impl/cpp_runtime.cpp:305-315 | after a release only returns of 0 follow; between two returns of 1 lies an abort by the first |
| Guard.ZeroFollowsRelease | source/impl/cpp_runtime.cpp:306-312 | every return of 0 comes after a release |
| Guard.ReleasedIff | source/impl/cpp_runtime.cpp:314-315 | over any interleaving the release bit is set exactly when it was or a release happened; no abort clears it |
| Guard.WaiterReturnsIff | source/impl/cpp_runtime.cpp:305-315 | after any interleaving from an unreleased guard, a thread still waiting returns at its next look if and only if a release has happened, and then with 0 |
| Guard.WaitsWithoutRelease | source/impl/cpp_runtime.cpp:311-315 | in every interleaving without a release a waiting thread stays waiting, whatever the others do |
| Guard.AbortStrandsWaitersExample | source/impl/cpp_runtime.cpp:305-315 | a legal run of two threads, one aborting, that ends with the guard free and the other waiting |
| Guard.StrandedForEver | source/impl/cpp_runtime.cpp:305-315 | after that run, no continuation without a release ends the wait |
| Atexit.AtexitTable.AtExit | source/impl/cpp_runtime.cpp:323-330 | 0 exactly for a non-null handler with room in the table, which is then appended; otherwise the table is unchanged |
| Atexit.AtexitTable.Finalize | source/impl/cpp_runtime.cpp:331-340 | calls the matching handlers still set, newest first, with their arguments, and clears matching entries |
| Atexit.AtexitTable.Perform | source/impl/cpp_runtime.cpp:320-340 | over any sequence of registrations and finalizes the table and the calls made, with their arguments and in their order, are those of the run |
| Atexit.CalledSpec | source/impl/cpp_runtime.cpp:333-338 | the handlers called are exactly the matching ones still set, in reverse registration order |
| Atexit.StepInv | source/impl/cpp_runtime.cpp:320-340 | a handler has run exactly when its entry is cleared, and none twice |
| Atexit.EachRunsAtMostOnce | source/impl/cpp_runtime.cpp:320-340 | over any sequence of calls no handler runs twice |
| Atexit.RunsIffFinalized | source/impl/cpp_runtime.cpp:320-340 | from any point on, a registered handler has run at the end if and only if it had run or a matching finalize follows |
| Atexit.RunsExactlyWhenDue | source/impl/cpp_runtime.cpp:320-340 | an accepted handler runs if and only if a matching finalize follows its registration |
| Utf8.EncodedLead | source/inc/classes/fstring.hpp:361-368 | utf8_advance_bytes of an encoded character's first byte is its length |
| Utf8.AdvanceIs | source/inc/classes/fstring.hpp:361-368 | the announced length of every byte: none exactly for continuation bytes and from 0xF8 on |
| Utf8.EncodedExamples | source/inc/classes/fstring.hpp:380-398 | the encoder on characters of RFC 3629 section 7 |
| Utf8.DecodeEncode | source/inc/classes/fstring.hpp:381-398 | decode_codepoint inverts the encoder of RFC 3629 section 3 for every scalar value, whatever follows |
| Utf8.DecodeStray | source/inc/classes/fstring.hpp:397 | a byte that leads nothing decodes to 0xFFFD |
| Utf8Text.SeekCount | source/inc/classes/fstring.hpp:401-430 | on any bytes an offset exists exactly for indices up to the count, and counting up to it gives the index back |
| Utf8Text.SeekGrows | source/inc/classes/fstring.hpp:401-415 | on any bytes offsets strictly increase with the index |
| Utf8Text.EncodeAppend | source/inc/classes/fstring.hpp:75-85 | encoding distributes over concatenation |
| Utf8Text.SeekEncoded | source/inc/classes/fstring.hpp:401-415 | on encoded text the walk stops at the offset of the k-th code point, for every k |
| Utf8Text.CountEncoded | source/inc/classes/fstring.hpp:33-46 | on encoded text the count between two code points is their distance |
| Utf8Text.LeadIsBoundary | source/inc/classes/fstring.hpp:361-368 | a byte that is not a continuation byte starts a character |
| Utf8Text.PrefixDecodes | source/inc/classes/fstring.hpp:92-100 | an encoding that is a prefix of another is the encoding of a prefix |
| Utf8Text.MatchesAreCodePoints | source/inc/classes/fstring.hpp:92-100 | byte matches of a non-empty needle are exactly its code-point matches |
| Utf8Text.Utf8Coded | source/inc/classes/fstring.hpp:361-398 | UTF-8 satisfies all that the theory asks of a code |
| FeronString.Length | source/inc/classes/fstring.hpp:33-46 | the loop counts lead bytes, for any bytes |
| FeronString.CodepointIndexToByte | source/inc/classes/fstring.hpp:401-415 | the loop finds the offset of a code-point index, for any bytes |
| FeronString.ByteToCodepointIndex | source/inc/classes/fstring.hpp:418-430 | the loop counts lead bytes before an offset, for any bytes |
| FeronString.IndexRoundTrip | source/inc/classes/fstring.hpp:401-430 | for any non-empty bytes, stray and truncated ones included: index to offset and back is the identity up to the length, offsets strictly increase |
| FeronString.Slice | source/inc/classes/fstring.hpp:131-141 | the bytes between the two offsets, negative bounds counted from the end, empty when out of order or range |
| FeronString.Concat | source/inc/classes/fstring.hpp:75-85 | the two copies into one buffer give the bytes of both, a null string on either side included, or the null string when there is no memory |
| FeronString.LengthRefines | source/inc/classes/fstring.hpp:33-46 | length of encoded text is its number of code points |
| FeronString.IndexToByteRefines | source/inc/classes/fstring.hpp:401-415 | the offset of every code-point index, nothing past the end or for empty text |
| FeronString.SliceRefines | source/inc/classes/fstring.hpp:131-141 | for all bounds slice of encoded text encodes the subsequence between the normalised bounds |
| FeronString.SliceIs | source/inc/classes/fstring.hpp:131-141 | for all bounds, told by the characters they stand for from the start, the end or before the start: the characters from one up to the other, or nothing |
| FeronString.LastCharacters | source/inc/classes/fstring.hpp:432-438 | slice(-k) is the last k characters |
| FeronString.ButLastCharacters | source/inc/classes/fstring.hpp:131-141 | slice(a, -k) is what is left from a on without the last k |
| FeronString.CharacterAt | source/inc/classes/fstring.hpp:299-304 | at the k-th boundary the iterator reads the k-th code point and steps to the next boundary |
| FeronString.Iterate | source/inc/classes/fstring.hpp:294-309 | a range-for over well-formed text ends having yielded exactly its code points |
| StringSearch.FirstOccIsFirst | source/impl/cpp_runtime.cpp:385-398 | the specification of search is the least match at or after a position |
| StringSearch.Strlen | source/impl/cpp_runtime.cpp:367-372 | bytes before the first NUL |
| StringSearch.Strstr | source/impl/cpp_runtime.cpp:385-398 | the first match in the C string, despite giving up when the haystack ends inside an attempt |
| StringSearch.IndexOf | source/inc/classes/fstring.hpp:92-100 | strstr between the two index conversions, for any bytes |
| StringSearch.ScanEncoded | source/impl/cpp_runtime.cpp:385-398 | the first NUL byte of encoded text is its first NUL character |
| StringSearch.FirstOccEncoded | source/inc/classes/fstring.hpp:92-100 | searching the bytes finds the offset of the first code-point match |
| StringSearch.IndexOfRefines | source/inc/classes/fstring.hpp:92-100 | on all well-formed text, NULs included: the least code-point index where the needle up to its NUL occurs before the haystack's next NUL |
| StringSearch.LastIndexOf | source/inc/classes/fstring.hpp:102-115 | on well-formed text, NULs and empty needles included: the greatest index where the needle up to its NUL occurs before the text's first NUL, none if there is none, and the last index for a needle that starts with a NUL |
| StringSearch.LastOfPlainText | source/inc/classes/fstring.hpp:102-115 | without NULs and with a non-empty needle that is the greatest index where the needle occurs |
| StringSplit.SplitJoins | source/inc/classes/fstring.hpp:267-291 | the parts joined with the delimiter give the text back and none contains the delimiter |
| StringSplit.CharAtRefines | source/inc/classes/fstring.hpp:50-55 | charAt of encoded text is the one character, empty past the end |
| StringSplit.SplitChars | source/inc/classes/fstring.hpp:269-277 | without a delimiter, one part per code point as room allows |
| StringSplit.SplitBy | source/inc/classes/fstring.hpp:278-290 | the loop writes the parts in order, no more than fit, and nothing else in the array |
| StringSplit.Split | source/inc/classes/fstring.hpp:267-291 | nothing for the null string, characters of well-formed text without a delimiter, parts of any bytes otherwise |
| StringSplit.PartsWritten | source/inc/classes/fstring.hpp:278-290 | the written parts are the encodings of the leading code-point parts, all of them when there is room |
| StringSplit.SplitRefines | source/inc/classes/fstring.hpp:267-291 | for encoded NUL-free text split refines splitting the code points, truncated to the room |
| Utf8Strings.ConcatOfText | source/inc/classes/fstring.hpp:75-85 | the bytes of two UTF-8 texts one after the other are the concatenated text |
| Utf8Strings.LengthOfText | source/inc/classes/fstring.hpp:33-46 | length of UTF-8 text is its number of scalar values |
| Utf8Strings.SliceOfText | source/inc/classes/fstring.hpp:131-141 | slice of UTF-8 text is the text between the normalised bounds, for all bounds |
| Utf8Strings.SliceOfTextIs | source/inc/classes/fstring.hpp:131-141 | slice of UTF-8 text for all bounds, without normalisation: characters a up to b, whatever way the bounds name them |
| Utf8Strings.LastOfText | source/inc/classes/fstring.hpp:432-438 | slice(-k) of UTF-8 text is the text of its last k characters |
| Utf8Strings.ButLastOfText | source/inc/classes/fstring.hpp:131-141 | slice(a, -k) of UTF-8 text is the text from a on without its last k characters |
| Utf8Strings.IndexOfText | source/inc/classes/fstring.hpp:92-100 | indexOf on all well-formed UTF-8 |
| Utf8Strings.IndexOfPlainText | source/inc/classes/fstring.hpp:92-100 | without NULs: the least index at or after fromIndex where the needle occurs, none exactly if there is none |
| Utf8Strings.SplitOfText | source/inc/classes/fstring.hpp:267-291 | split of NUL-free UTF-8 writes parts that join to the text and lack the delimiter, a prefix of them with less room |
| PageFrames.BitStored | source/inc/mm/pfa.hpp:21-23 | setting or clearing one bit changes that bit and no other |
| PageFrames.BitIs | source/inc/mm/pfa.hpp:21 | bit k is the one a right shift by k brings last |
| PageFrames.EndIs | source/inc/mm/pfa.hpp:40-72 | the end of an entry wraps at 2^64 |
| PageFrames.PageAllocator.UsableRange | source/inc/mm/pfa.hpp:32-43 | the loop finds the lowest start and highest end of the usable entries |
| PageFrames.UsableRangeIs | source/inc/mm/pfa.hpp:32-43 | the range found starts at the lowest start of a usable entry, ends at the highest end of one, and spans them all |
| PageFrames.RangeIsPages | source/inc/mm/pfa.hpp:52-54 | the managed range starts at the first page boundary above the lowest usable address and ends at the last one up to the highest usable end |
| PageFrames.DisabledIff | source/inc/mm/pfa.hpp:45-57 | the allocator is disabled exactly when no whole page lies above the lowest usable address and up to the highest usable end |
| PageFrames.PageInUsable | source/inc/mm/pfa.hpp:59-60 | no page reaches past the highest usable end or down to the lowest usable address |
| PageFrames.PageAllocator.ReserveRange | source/inc/mm/pfa.hpp:71-90 | sets exactly the bits of the floored, clipped range |
| PageFrames.PageAllocator.Init | source/inc/mm/pfa.hpp:31-97 | for any memory map, overflow included: disabled, also when malloc gives no bitmap, or a bit is set exactly when the page is reserved |
| PageFrames.EntryReservesIff | source/inc/mm/pfa.hpp:71-77 | what clipping and rounding one entry's range come to, in addresses |
| PageFrames.ReservedExactly | source/inc/mm/pfa.hpp:66-97 | without overflow, over the whole map: a page is reserved exactly when it is one of the first 4096 or a non-usable entry begins before the end of the page and covers it; the VGA range adds nothing |
| PageFrames.NoFreePageInside | source/inc/mm/pfa.hpp:66-80 | no page wholly inside a non-usable entry starts out free |
| PageFrames.PartialPageStartsFree | source/inc/mm/pfa.hpp:71-77 | a memory map with a page that starts out free although a non-usable entry touches it |
| PageFrames.HoleStartsFree | source/inc/mm/pfa.hpp:59-96 | a memory map with a hole whose pages start out free |
| PageFrames.PageAllocator.AllocPage | source/inc/mm/pfa.hpp:100-109 | the lowest free page, aligned and inside the range, which is then not free; 0 when none is free |
| PageFrames.PageAllocator.FreePage | source/inc/mm/pfa.hpp:111-115 | any address in range frees its page and no other; others do nothing |
| PageFrames.PagesConserved | source/inc/mm/pfa.hpp:100-115 | over any run of takes and returns of held pages no page is held twice or held and free, and free plus held is conserved |
| PageFrames.PageHolder.DoTake | source/inc/mm/pfa.hpp:100-109 | the lowest free page joins the held ones; 0 exactly when no page is free |
| PageFrames.PageHolder.DoGiveBack | source/inc/mm/pfa.hpp:111-115 | the page that was handed out becomes free and leaves the held ones |
| PageFrames.PageHolder.Perform | source/inc/mm/pfa.hpp:100-115 | over any sequence of takes and returns the bitmap's free pages and the held addresses are those of the run |
| Multiboot.Parse | source/inc/boot/mb2.hpp:56-151 | the loop ends on every tag area and applies the accepted tags in order |
| Multiboot.TagsInside | source/inc/boot/mb2.hpp:69-77 | every accepted tag is aligned, inside the total size, at least a header and no end tag, and the next one is at the first aligned place behind it |
| Multiboot.WalkStops | source/inc/boot/mb2.hpp:69-77 | the walk starts at the first tag and stops at the first place behind one where there is no tag |
| Multiboot.WalkAppliesTags | source/inc/boot/mb2.hpp:69-148 | the information is that of the accepted tags, one after the other |
| Multiboot.MapStaysInside | source/inc/boot/mb2.hpp:112-124 | there is no map, or one from a tag with as many whole entries as fit, which do not reach past the tag even at the 24-byte stride |
| Multiboot.EntriesReadable | source/inc/mm/pfa.hpp:35-43 | on any tag area all entries pfa::init reads, and all the tag announces, are inside it, each field within its width, and they are as many as fit into the tag |
| Multiboot.FieldIs | source/inc/boot/mb2.hpp:14-30 | fields are little-endian words |
| Multiboot.StrideAgrees | source/inc/mm/pfa.hpp:35-43 | on any tag area pfa::init looks for the entries where the tag has them if and only if the announced size is 24 or there is at most one, and then reads exactly the announced ones |
| Multiboot.StrideDiffers | source/inc/mm/pfa.hpp:35-43 | an encoded map of two 32-byte entries of which the second is read wrongly |
| Multiboot.EncodedHolds | source/inc/boot/mb2.hpp:66-77 | the encoding of any well-formed tag list is an area that holds those tags |
| Multiboot.AppliedTag | source/inc/boot/mb2.hpp:79-145 | a held tag is accepted and contributes what its kind and payload mean |
| Multiboot.AppliedAll | source/inc/boot/mb2.hpp:69-148 | the walk over the bytes computes what the tags mean |
| Multiboot.FindsLast | source/inc/boot/mb2.hpp:79-145 | a part of the information that one kind of tag sets ends with the value of the last such tag |
| Multiboot.FindsFirstModule | source/inc/boot/mb2.hpp:104-106 | the modules pointer is the first module tag |
| Multiboot.CountsModules | source/inc/boot/mb2.hpp:90-111 | the module count is the number of module tags |
| Multiboot.ParseRecovers | source/inc/boot/mb2.hpp:56-151 | on the encoding of any well-formed tag list: the last non-empty command line and loader name, the last valid memory map, the last framebuffer, the first module and the module count |
| Multiboot.RecoveredCount | source/inc/boot/mb2.hpp:115-121 | k entries of the announced size are counted as k, for every k |
| Multiboot.MapReadsBack | source/inc/mm/pfa.hpp:35-43 | whatever well-formed tags there are, if the last valid memory map encodes some entries pfa::init reads exactly them |
| Multiboot.FramebufferReadsBack | source/inc/boot/mb2.hpp:128-140 | the fields of an encoded framebuffer read back |
| Keyboard.RingPops | source/inc/cpu/irq/keyboard.hpp:18-23 | across wrap-around the ring is its oldest code followed by the rest |
| Keyboard.KeyTypes | source/inc/cpu/irq/keyboard.hpp:61-78 | without caps lock a key types its entry of the plain row, with shift of the shifted row; a release or a key past the row types nothing |
| Keyboard.CapsLock | source/inc/cpu/irq/keyboard.hpp:78-81 | caps lock turns exactly the small letters into their capitals |
| Keyboard.RowsOfSet1 | source/inc/cpu/irq/keyboard.hpp:45-59 | where the characters of the set-1 rows are, small letters over their capitals |
| Keyboard.KeyOfA | source/inc/cpu/irq/keyboard.hpp:61-82 | the key of scancode 0x1E types a, A with shift or caps lock, and nothing when released |
| Keyboard.ModifiersAre | source/inc/cpu/irq/keyboard.hpp:28-42 | after any codes shift, control and alt are down exactly when the last code of their keys was a press, caps lock has changed with every press, and an extended code has begun exactly when the last code says so |
| Keyboard.EditLast | source/inc/cpu/irq/keyboard.hpp:99-104 | a backspace takes back the last character left by what was typed before, nothing from an empty line; any other character is appended |
| Keyboard.EditPlain | source/inc/cpu/irq/keyboard.hpp:99-104 | without backspaces the line is what was typed |
| Keyboard.Driver.Push | source/inc/cpu/irq/keyboard.hpp:11-17 | appends to the queue exactly when fewer than 255 codes wait, otherwise changes nothing |
| Keyboard.Driver.Pop | source/inc/cpu/irq/keyboard.hpp:18-23 | takes the oldest code, none exactly when the queue is empty |
| Keyboard.Driver.GetChar | source/inc/cpu/irq/keyboard.hpp:85-93 | takes one code, updates the modifiers, gives its character if it has one |
| Keyboard.Driver.ReadLine | source/inc/cpu/irq/keyboard.hpp:95-107 | ends although the index can step back; buffer, terminator, queue and modifiers afterwards are those of the reader on the queue |
| Keyboard.ReadIsEdit | source/inc/cpu/irq/keyboard.hpp:95-107 | read_line takes codes up to the first that types nothing or a newline, the end of the queue or a full line, no fewer and no more; what it gives is the backspace-editing of what they type, a newline only at the end |
| Keyboard.OnlyReading | source/inc/cpu/irq/keyboard.hpp:95-107 | that fixes the line, the codes taken and the modifiers |

## Left out

- Heap.KernelHeap.FirstMalloc: nothing is claimed about the calls that follow a first block of less than 56 bytes, where no tiling exists, nor about what writes through the first pointer, which points at the block's header, do to the heap.
- Heap.KernelHeap.Malloc: requires a valid heap with the header size set; the call that finds it still 0, and the one before `kernel_heap_init`, is `FirstMalloc`.
- Heap.KernelHeap.Realloc: to allocate it requires a non-empty free list and a size that does not wrap; `MallocSparesTheLive` and `RequestFits` say what goes wrong without them.
- Heap.KernelHeap.constructor: the size of the region is a multiple of 8 bytes.
- HeapClient.Client.Perform: stops before an allocation that would meet an empty free list.
- FeronString.Slice: works on bytes that are all there is; the reads past the end that `charAt` and the iterator can make on text whose last character is truncated are not modelled.
- FeronString.Concat: a string is its bytes, so a non-null string of no bytes, which `replace` can produce, is not told apart from the null string.
- FeronString.Iterate: well-formed text only.
- StringSplit.SplitChars: well-formed text only, since `charAt` reads past the end of a truncated last character.
- StringSplit.Split: without a delimiter, well-formed text only, for the same reason.
- StringSearch.LastIndexOf: well-formed text only.
- StringSplit.SplitRefines: NUL-free text and a non-empty delimiter; `SplitOfText` likewise.
- PageFrames.PageHolder.Perform: needs a positive base, which `ReservedExactly` gives whenever no sum overflows.
- Multiboot.Parse: needs one readable byte behind the total size, because a string tag that is all header is looked at one byte past its end; the null pointer is not modelled.
- Multiboot.ParseRecovers: a string tag carries at least its terminator.
- Keyboard.Driver.ReadLine: no scancode arrives while a line is being read.
- Atexit.AtexitTable.Finalize: handlers do not call back into the table.
- The allocator's spin lock and concurrent use of the heap; the guard's plain reads are taken as atomic.
- 16-byte payload alignment, double free and foreign pointers: the code does not decide them.
- `calloc`, `new` and `delete`, `memcpy`, `memset`, `memmove`, `memcmp`: thin wrappers or easy loops.
- String `at`, `substring`, `substr`, `startsWith`, `endsWith`, `repeat`, `trim`, padding, case conversion, `replace` and `replaceAll`, and buffer ownership: easy members, or, for `replaceAll`, not what its name promises.
- The key callback of the keyboard.
- Paging, `valloc`, heap placement, text console, serial port, interrupt controllers, timers, descriptor tables, event registration, boot assembly and linking.
