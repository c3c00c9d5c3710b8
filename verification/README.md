# Verified models of a hobby kernel's core

This project models, in Dafny, the parts of the kernel whose correctness rests on an argument rather than on a
reading of one function, and proves those arguments for all inputs, all runs and all reachable states:

- **Decompression** (`Bits`, `CanonicalCode`, `BitReversal`, `BitStream`, `Huffman`, `Inflate`, `CodeLengths`,
  `DynamicHeader`, `Deflate`, `Rfc1951`, `Decompressor`). The fast Huffman tables refine the canonical codes of
  section 3.2.2 of RFC 1951; decompression of fixed and dynamic blocks is the exact inverse of compression, in both
  directions, from single symbols up to whole streams.
- **Paging** (`PageEntry`, `PageWalk`, `PageTops`, `FlatMap`, `PageMap`, `PageRange`). The 4- and 5-level tables,
  with allocation on the walk, a shared kernel half and destruction, refine a flat map from page to frame and flags.
- **Address spaces** (`Regions`, `RegionSearch`, `AddressSpace`, `Process`). First-fit allocation, demand paging, and isolation after fork.
- **Program start** (`UserStack`). The initial stack, printed into bytes, reads back as the psABI prescribes.
- **Threads and events** (`Scheduler`, `SchedulerRuns`, `Events`, `LostWakeup`, `EventTable`). The partition of the
  threads over the queues, fairness, the event protocol under every interleaving, and exactly when it loses a wake-up.
- **Checks and images** (`Kasan`, `Png`). Shadow checks by width refine a byte-by-byte scan; in-place scanline
  reconstruction inverts filtering.

Where the code changes state in place the model is a class or a method on arrays, with its loops. Each such method is
proved against a function on values, and the theorems are about those functions. `dafny verify dfyconfig.toml` checks
everything.

## Where the code does not keep its promise

The model follows the code. These promises are kept only in part; for each the exact condition, or the exact outcome, is
proved:

- *Disjoint regions* (Kernel/Memory/AddressSpace.cpp:23-143): pointers wrap at 2^64, so a request that is long enough
  passes the tests over existing regions; `mmap` bounds the address but not the length (Kernel/API/MM.cpp:42 and 114-117).
  `AvailabilityIff` says when the test is right, `KeepsDisjointIff`, `BreaksIff` and `AllocationKeepsIff` which requests
  keep regions disjoint, `FixedOverlapIff` when two overlap, `RunDisjointIff` the same over runs; `WrapExample` and
  `WrapAllocationExample` show overlaps.
- *Lowest fit* (Kernel/Memory/AddressSpace.cpp:53-88): the cursor follows the first region even below the range base:
  `PromiseIff`, `LowestIff`, `FitIsFound`, `BelowBaseExample`.
- *Fork* (Kernel/Scheduler/Process.cpp:445-463): a region that was never touched has no frames, and the child gets
  whatever lies at its physical base. And `munmap` frees frames that stay mapped (Kernel/API/MM.cpp:155-169), so that
  a child can be given a frame of its parent. The contract of `Fork` says what the child reads and when it is isolated.
- *Page faults* (Kernel/Memory/MM.cpp:200-212): the reason is not looked at, so a fault in a backed region replaces its
  contents by zeros: `HandlePageFault`.
- *Events* (Kernel/Scheduler/Event.cpp:81-85): a trigger between attaching and blocking is lost. `SleepLosesIff` and
  `WakeableIff` say exactly when, `DeafForever` that it is for good, `LostWakeupExample` that it can happen.
- *Shadow checks* (Kernel/Debug/Kasan.cpp:130-142): the shadow byte is a `u8`, so poison compares as a large positive
  number and passes. `PromiseIff` and `RedzoneExample` in module `Kasan` are about this; that the wide checks agree with
  the one-byte check does not depend on it.
- *Code lengths* (Kernel/Library/ZLib.cpp:309-334): an item that exceeds the buffer is written before the count is
  looked at. `OverrunComplete` and `OverrunSound` say exactly for which items, `OverrunExample` is one header.
- *Range unmapping* (Kernel/Memory/PageMap.cpp:123-130) stops at the first page without a leaf table: the contract of
  `UnmapRange` and `UnmapsAllIff` say when pages stay mapped, `UnmapStopsExample` shows one.

## Model

| member | source | states |
|---|---|---|
| `CanonicalCode.KraftByLength` | Kernel/Library/ZLib.cpp:52-66 | The Kraft sum taken symbol by symbol is the sum taken length by length, the form in which the table builder accumulates it. |
| `CanonicalCode.KraftFits` | Kernel/Library/ZLib.cpp:52-66 | Under the Kraft inequality the codes of every length end at or below 2^length, which is the test made while codes are assigned. |
| `CanonicalCode.KraftAtEnd` | Kernel/Library/ZLib.cpp:52-66 | The Kraft inequality holds exactly when the first code number behind the longest length is at most 2^16. |
| `CanonicalCode.MatchInterval` | Kernel/Library/ZLib.cpp:63-63 | A window that starts with a code of length L lies, read most significant bit first, in the interval from limit L-1 to limit L. |
| `CanonicalCode.IntervalMatch` | Kernel/Library/ZLib.cpp:111-120 | Conversely every window of that interval starts with a code of length L, and its offset in the interval is the rank of the symbol among those of that length. |
| `CanonicalCode.PrefixFree` | Kernel/Library/ZLib.cpp:41-91 | No code of an accepted length vector is a prefix of another. |
| `CanonicalCode.Tiling` | Kernel/Library/ZLib.cpp:41-91 | The codes tile an initial segment of the 16-bit windows: some code starts a window exactly when the window lies below the last limit. |
| `BitReversal.Reverse16Bit` | Kernel/Library/ZLib.cpp:17-30 | The four swaps by masks move bit k to bit 15-k, for every value and every bit. |
| `BitReversal.ReverseWindow` | Kernel/Library/ZLib.cpp:17-30 | Reversing the sixteen peeked bits turns the value read least significant bit first into the one read most significant bit first. |
| `BitReversal.ReverseCode` | Kernel/Library/ZLib.cpp:17-30 | Reversing a code number of n bits gives the number whose bits, least significant first, are the code. |
| `Huffman.PackedEntry` | Kernel/Library/ZLib.cpp:76-76 | Length and symbol packed into a fast-table entry are both recovered by the shift and the mask of the decoder. |
| `Huffman.FastEntryMeaning` | Kernel/Library/ZLib.cpp:80-89 | After filling, the fast entry of a window is the packed symbol whose code of at most nine bits starts the window, and zero exactly when there is none. |
| `Huffman.FastMatchIsMatch` | Kernel/Library/ZLib.cpp:80-89 | A nine-bit index hits a filled slot of a symbol exactly when the symbol's code starts the window. |
| `Huffman.NoShortCode` | Kernel/Library/ZLib.cpp:106-114 | When the fast table is empty for a window, the window lies at or above the limit of length nine, where the slow path begins. |
| `Huffman.SymbolIndexInjective` | Kernel/Library/ZLib.cpp:73-79 | No two symbols share a slot of the symbol arrays. |
| `Huffman.HuffmanTree.CountLengths` | Kernel/Library/ZLib.cpp:41-43 | The histogram holds for each length 1 to 15 the number of symbols of that length, and zero for length 0. |
| `Huffman.HuffmanTree.AssignFirstCodes` | Kernel/Library/ZLib.cpp:44-67 | Succeeds exactly on the Kraft inequality; then the first codes, limits and first symbol indices are those of the reference code. |
| `Huffman.HuffmanTree.FillSymbols` | Kernel/Library/ZLib.cpp:68-91 | Enters every symbol into the symbol arrays and the fast table, whatever they held before. |
| `Huffman.HuffmanTree.Build` | Kernel/Library/ZLib.cpp:32-93 | Succeeds exactly when the lengths satisfy the Kraft inequality, and then the tables describe the canonical code of section 3.2.2 of RFC 1951, independent of any earlier contents. |
| `Huffman.HuffmanTree.Decode` | Kernel/Library/ZLib.cpp:94-105 | Returns symbol s and drops exactly the length of s if and only if the code of s starts the next sixteen bits; returns -1 and drops nothing if and only if no code does. |
| `Huffman.HuffmanTree.DecodeSlowPath` | Kernel/Library/ZLib.cpp:106-121 | The same for windows without a fast entry: limits, first codes and symbol arrays find the one matching symbol. |
| `Inflate.SymbolAtIff` | Kernel/Library/ZLib.cpp:94-121 | A symbol is read exactly when its code is the next part of the stream. |
| `Inflate.MatchBits` | Kernel/Library/ZLib.cpp:386-406 | A match is encoded as the length code, its extra bits, the distance code and its extra bits, in that order and at those positions. |
| `Inflate.NextTokenIff` | Kernel/Library/ZLib.cpp:350-407 | The decoder reads token t and stops behind its encoding exactly when that encoding comes next; this covers literals, both extra-bit fields and the distance symbol. |
| `Inflate.BlockRoundTrip` | Kernel/Library/ZLib.cpp:345-420 | On the encoding of any token list whose matches stay inside the output and the capacity, decoding appends the LZ77 expansion and stops right behind the end-of-block code, whatever follows. |
| `Inflate.BlockSound` | Kernel/Library/ZLib.cpp:345-420 | Conversely, whatever a block decode accepts is the encoding of a token list that expands to exactly the output. |
| `Rfc1951.MatchCovered` | Kernel/Library/ZLib.cpp:378-402 | Every match length of 3 to 258 and every distance of 1 to 32768 is expressible with the two tables, 258 as the last length symbol without extra bits. |
| `Rfc1951.DistanceTable` | Kernel/Library/ZLib.cpp:395-402 | Every entry of the distance table is the base value and the number of extra bits that section 3.2.5 of RFC 1951 gives its symbol. |
| `Rfc1951.LengthTable` | Kernel/Library/ZLib.cpp:378-384 | The same for every entry of the length table. |
| `Rfc1951.FixedCodes` | Kernel/Library/ZLib.cpp:218-239 | The fixed lengths give the code numbers tabulated in section 3.2.6 of RFC 1951, and are a valid code. |
| `Rfc1951.FixedDistancesValid` | Kernel/Library/ZLib.cpp:236-238 | The fixed distance code is valid and encodes each symbol as its own five-bit number. |
| `Rfc1951.StandardValid` | Kernel/Library/ZLib.cpp:218-294 | The constants in the source form a valid format, so every stream theorem applies to them. |
| `Decompressors.CopyBackSnoc` | Kernel/Library/ZLib.cpp:417-418 | Copying one byte more appends the byte found `distance` back from the end of the copy so far. |
| `Inflate.CopyBackPeriodic` | Kernel/Library/ZLib.cpp:417-418 | A copy keeps the old bytes, and every new byte equals the one a distance before it, also where the copy overlaps itself. |
| `Decompressors.Decompressor.CopyMatch` | Kernel/Library/ZLib.cpp:417-418 | The in-place copy equals the byte-by-byte LZ77 copy, overlapping copies and the distance-1 case included. |
| `Decompressors.Decompressor.WriteToken` | Kernel/Library/ZLib.cpp:356-418 | Writes the expansion of a token into the output buffer, or reports a distance beyond the output or a lack of capacity, each exactly when it is so: a literal may fill the buffer, a match must stay strictly inside. |
| `Decompressors.Decompressor.DecodeBlock` | Kernel/Library/ZLib.cpp:345-420 | The method over the output buffer computes exactly the outcome that the block theorems are about: status, output and stream position. |
| `CodeLengths.NextItemIff` | Kernel/Library/ZLib.cpp:311-328 | A code-length item is read exactly when its encoding, symbol and extra bits, comes next. |
| `CodeLengths.ItemsRoundTrip` | Kernel/Library/ZLib.cpp:308-334 | Reading undoes writing for every list of code lengths and repetitions that expands to the announced number of lengths. |
| `CodeLengths.ItemsSound` | Kernel/Library/ZLib.cpp:308-334 | Conversely, any accepted sequence of items is the encoding of a list that expands to the lengths found. |
| `CodeLengths.OverrunComplete` | Kernel/Library/ZLib.cpp:309-329 | Items that stay inside the 320 entries, followed while lengths are missing by one that does not, make the loop leave the buffer. |
| `CodeLengths.OverrunSound` | Kernel/Library/ZLib.cpp:309-329 | Conversely the loop leaves the buffer on such items only. |
| `CodeLengths.PlainExpands` | Kernel/Library/ZLib.cpp:317-317 | Every vector of lengths is the expansion of some items. |
| `CodeLengths.RepetitionRows` | Kernel/Library/ZLib.cpp:315-328 | The rows of section 3.2.7 of RFC 1951 for plain lengths and for symbols 16, 17 and 18: extra bits, how often, and what is repeated. |
| `DynamicHeader.OrderValid` | Kernel/Library/ZLib.cpp:292-293 | The transmission order is a permutation of the nineteen code-length symbols. |
| `DynamicHeader.OrderIs` | Kernel/Library/ZLib.cpp:292-293 | The transmission order entry by entry: 16, 17, 18, 0, then 8 up and 7 down in turn. |
| `DynamicHeader.LengthsReadIff` | Kernel/Library/ZLib.cpp:303-305 | The reader ends with a given code-length code exactly when its three-bit encoding in transmission order comes next and the lengths not sent are zero. |
| `DynamicHeader.HeaderRoundTrip` | Kernel/Library/ZLib.cpp:290-343 | Parsing the encoding of a dynamic header yields exactly its literal and distance lengths, and rejects it exactly when one of them is no code. |
| `DynamicHeader.HeaderSound` | Kernel/Library/ZLib.cpp:290-343 | Conversely, every accepted header is the encoding of one with the lengths found. |
| `DynamicHeader.ParsedCounts` | Kernel/Library/ZLib.cpp:298-301 | The counts of an accepted header are its first three fields plus 257, 1 and 4, and its lengths are read from right behind them. |
| `DynamicHeader.HeaderOverrun` | Kernel/Library/ZLib.cpp:290-334 | A header with such items is rejected, after the loop has left the buffer. |
| `DynamicHeader.OverrunExample` | Kernel/Library/ZLib.cpp:290-334 | A header that announces 320 lengths and encodes 414. |
| `Decompressors.Decompressor.ReadItems` | Kernel/Library/ZLib.cpp:308-334 | The loop over the 320-entry buffer computes exactly the code lengths of the specification, and fails exactly when it does. |
| `Decompressors.Decompressor.DecodeCanonicalCodes` | Kernel/Library/ZLib.cpp:290-343 | Succeeds exactly when the header parses and both codes can be built; then both trees describe them and the stream stands behind the header. |
| `Decompressors.Decompressor.ParseBlock` | Kernel/Library/ZLib.cpp:218-289 | Prepares the trees for fixed and dynamic blocks exactly as the block kind says. |
| `Deflate.PrepareAdvances` | Kernel/Library/ZLib.cpp:194-203 | A block that can be prepared starts inside the input and its header is not empty, so the loop over blocks terminates. |
| `Deflate.BlockHeaderBits` | Kernel/Library/ZLib.cpp:197-199 | An encoded block starts with the last-block bit, then 01 for fixed and 10 for dynamic codes, least significant bit first. |
| `Deflate.OtherKinds` | Kernel/Library/ZLib.cpp:241-287 | Kind 00 is a stored block and kind 11 is invalid. |
| `Deflate.StreamRoundTrip` | Kernel/Library/ZLib.cpp:192-203 | For every list of fixed and dynamic blocks, decompressing their encoding gives the LZ77 expansion of all of them, matches into earlier blocks included, and consumes exactly the encoding. |
| `Deflate.StreamSound` | Kernel/Library/ZLib.cpp:192-203 | Conversely, every stream that is decompressed completely is the encoding of a list of blocks that expands to the output. |
| `Rfc1951.EveryStringEncodes` | Kernel/Library/ZLib.cpp:192-203 | Every byte string that fits the capacity is the decompression of some stream. |
| `Decompressors.Decompressor.DecompressStream` | Kernel/Library/ZLib.cpp:192-203 | The loop over blocks computes exactly the outcome that the stream theorems are about. |
| `PageEntry.PackedFields` | Kernel/Memory/PageTableEntry.hpp:86-105 | A frame address and flags outside the address bits, packed into one word, are both recovered. |
| `PageEntry.NativeFlags` | Kernel/Arch/x86_64/VMM.cpp:93-123 | For every attribute word of a 4 KiB page the native flags have the present bit and stay outside the address bits. |
| `PageEntry.NativeFlagBits` | Kernel/Arch/x86_64/VMM.cpp:93-123 | Every bit of the native flags of a 4 KiB page, by position: present, writable, user, global and no-execute follow their attributes, write-through, cache-disable and PAT the caching attribute, and all others are clear. |
| `PageEntry.TableEntryFields` | Kernel/Arch/x86_64/VMM.cpp:36-36 | The entry of a table is valid, writable and user accessible, not large and not no-execute, and leads to the table. |
| `PageEntry.LeafEntryFields` | Kernel/Arch/x86_64/VMM.cpp:211-213 | The entry written for a page gives back the frame and the flags and is valid. |
| `PageWalk.WalkRole` | Kernel/Arch/x86_64/VMM.cpp:140-177 | In an owned store, a walk along a path ends in the one table that has the role of that path. |
| `PageWalk.AddTableOwned` | Kernel/Memory/VMM.cpp:38-47 | Linking a fresh table into an empty entry keeps the ownership invariant. |
| `PageWalk.AddTableView` | Kernel/Memory/VMM.cpp:38-47 | Linking a fresh table changes no page's translation in any page map. |
| `PageWalk.WriteLeafView` | Kernel/Arch/x86_64/VMM.cpp:211-213 | Writing a leaf entry changes the translation of exactly that page, in exactly the page maps that share its table. |
| `PageTops.AddTopView` | Kernel/Arch/x86_64/VMM.cpp:305-309 | A new page map sees the kernel half of its model and nothing in the lower half; the others see what they saw. |
| `PageTops.RemoveTopView` | Kernel/Arch/x86_64/VMM.cpp:45-73 | Removing the private tables of a page map changes no translation of any other. |
| `FlatMaps.LookupUpdate` | Kernel/Arch/x86_64/VMM.cpp:190-246 | In the flat map, an update is seen at exactly its own page, by its own page map or, for a kernel page, by all. |
| `FlatMaps.WriteRefines` | Kernel/Arch/x86_64/VMM.cpp:204-214 | Writing a leaf entry refines updating the flat map. |
| `FlatMaps.AddTableRefines` | Kernel/Memory/VMM.cpp:38-47 | Allocating an intermediate table refines doing nothing. |
| `PageMaps.PageTables.NextLevel` | Kernel/Memory/VMM.cpp:38-47 | Follows an entry to the table with the right role, allocating it if asked; fails exactly when it is missing and not to be allocated; the flat map stays. |
| `PageMaps.PageTables.Virt2Pte` | Kernel/Arch/x86_64/VMM.cpp:140-177 | The 4- or 5-level walk finds the leaf table of the address's page and the index in it; without allocation it fails exactly when no such table exists. |
| `PageMaps.PageTables.Virt2Phys` | Kernel/Arch/x86_64/VMM.cpp:179-188 | Frame plus offset for a mapped page, -1 for an unmapped one, as the flat map says. |
| `PageMaps.PageTables.InternalMap` | Kernel/Arch/x86_64/VMM.cpp:190-215 | For 4 KiB attributes, updates the flat map at one page and leaves every other page of every page map unchanged, although tables are allocated: at most one leaf table, the page's own. |
| `PageMaps.PageTables.InternalUnmap` | Kernel/Arch/x86_64/VMM.cpp:217-246 | Clears one page of the flat map; succeeds if and only if the page has a leaf table, and a page without one was not mapped. |
| `PageMaps.PageTables.MapRange` | Kernel/Memory/PageMap.cpp:100-113 | Maps the pages of the range in order, as the flat range map says. |
| `PageMaps.PageTables.UnmapRange` | Kernel/Memory/PageMap.cpp:123-130 | Succeeds if and only if every page of the range has a leaf table; otherwise it stops at the first page that has none, having unmapped exactly the pages before it. A user range ends up unmapped if and only if every mapped page of it has only pages with leaf tables before it. |
| `PageMaps.PageTables.MappedHasLeaf` | Kernel/Arch/x86_64/VMM.cpp:217-246 | Every mapped page has a leaf table, so a fully mapped range is unmapped completely. |
| `FlatMaps.AllUnmappedIff` | Kernel/Memory/PageMap.cpp:123-130 | After unmapping some first pages of any range, none of its pages is mapped if and only if no other page of it was mapped. |
| `PageRange.UnmapsAllIff` | Kernel/Memory/PageMap.cpp:123-130 | A user range ends up unmapped if and only if every mapped page of it has only pages with leaf tables before it. |
| `PageMaps.UnmapStopsExample` | Kernel/Memory/PageMap.cpp:123-130 | With only the page at 2 MiB mapped, unmapping the range from 0 up to and including it fails and keeps it mapped. |
| `FlatMaps.GrownLeaves` | Kernel/Arch/x86_64/VMM.cpp:140-177 | A walk that allocates gives a leaf table to its own page, to those that share it, and to no other. |
| `PageMaps.RunLookup` | Kernel/Arch/x86_64/VMM.cpp:140-246 | After any sequence of map and unmap calls, each page translates as the last operation that reaches it said: kernel pages through any page map, user pages only through their own. |
| `PageMaps.PrivateLowerHalf` | Kernel/Arch/x86_64/VMM.cpp:190-246 | No sequence of operations through other page maps changes a lower-half page of this one. |
| `PageMaps.PageTables.SharedKernelHalf` | Kernel/Arch/x86_64/VMM.cpp:305-308 | At any time all page maps translate every kernel page alike. |
| `PageMaps.Boot` | Kernel/Arch/x86_64/VMM.cpp:288-309 | Starting from free frames alone, the kernel's and a process's page map are created and satisfy the invariant. |
| `PageMaps.PageTables.Execute` | Kernel/Memory/PageMap.cpp:66-93 | Any sequence of map and unmap calls on the tables refines the same sequence on the flat map. |
| `PageMaps.PageTables.NewPageMap` | Kernel/Arch/x86_64/VMM.cpp:288-309 | A new page map has an empty lower half and the shared kernel half; the first one allocates all 256 kernel slots. |
| `PageMaps.PageTables.FillKernelHalf` | Kernel/Arch/x86_64/VMM.cpp:293-294 | After the loop every kernel slot of the first top level leads to a table, so later kernel mappings never change a top level. |
| `PageMaps.PageTables.DestroyLevel` | Kernel/Arch/x86_64/VMM.cpp:45-59 | Frees exactly the table and the private tables below the given entries, each once, and nothing at level 0. |
| `PageMaps.PageTables.DestroyPageMap` | Kernel/Arch/x86_64/VMM.cpp:69-73 | Terminates and frees each private table and the top level exactly once, no shared table, no other page map's table and no data frame; other page maps translate as before. |
| `PageRange.UserPages` | Kernel/Arch/x86_64/VMM.cpp:143-147 | Below the end of the lower half, two addresses have the same table indices exactly when they have the same page number. |
| `PageRange.PageDigits` | Kernel/Arch/x86_64/VMM.cpp:143-147 | The indices of the walk are the base-512 digits of the page number, the top level first. |
| `PageRange.MapPagesLookup` | Kernel/Memory/PageMap.cpp:100-113 | Every address of a mapped range translates to the physical base plus its offset; every other user address of every page map is as before. |
| `PageRange.MapPagesKernel` | Kernel/Memory/PageMap.cpp:100-113 | Mapping a user range changes no kernel page. |
| `PageRange.UnmapUndoesMap` | Kernel/Memory/PageMap.cpp:100-130 | Unmapping a range undoes mapping it, if it was free before. |
| `AddressSpaces.AddressSpace.IsAvailable` | Kernel/Memory/AddressSpace.cpp:23-39 | Holds exactly when every region is clear of the request as the code compares wrapping 64-bit pointers. |
| `RegionSearch.AvailabilityIff` | Kernel/Memory/AddressSpace.cpp:23-39 | On disjoint regions that test tells the truth about overlap if and only if the request does not wrap past a region: reach 2^64 while some region ends behind its base, and re-enter at or below all of those. |
| `Regions.InsertedDisjointIff` | Kernel/Memory/AddressSpace.cpp:40-44 | Entering a region keeps the regions disjoint if and only if it is not empty, does not wrap, and overlaps no region with another base. |
| `AddressSpaces.AddressSpace.Insert` | Kernel/Memory/AddressSpace.cpp:40-44 | Enters any region under its base, keeping the order; the regions stay disjoint exactly when the region is sound and its place is free. |
| `AddressSpaces.AddressSpace.Erase` | Kernel/Memory/AddressSpace.cpp:45-51 | Removes exactly the region with the given base, if there is one, and keeps disjointness. |
| `AddressSpaces.AddressSpace.FindPlace` | Kernel/Memory/AddressSpace.cpp:53-88 | Returns the first cursor position that passes the gap test and the availability test on wrapping pointers, or nothing when none does, for every region list, length and alignment above zero. |
| `RegionSearch.GapTestSuffices` | Kernel/Memory/AddressSpace.cpp:65-72 | Once the gap test has passed, the availability test cannot fail, whether the request wraps or not, as long as aligning the cursor does not wrap. |
| `RegionSearch.LowestIff` | Kernel/Memory/AddressSpace.cpp:53-88 | With every region at or above the range base: the lowest aligned free place at or above it is returned if and only if the request fits somewhere there, below 2^64. |
| `RegionSearch.FitIsFound` | Kernel/Memory/AddressSpace.cpp:53-88 | Wherever the regions lie: if the request fits at or above the range base, the search succeeds, and its result is the lowest fit from the search start on. |
| `RegionSearch.AllocationKeepsIff` | Kernel/Memory/AddressSpace.cpp:53-88 | With every region at or above the range base and an aligned address left behind all of them: an allocation keeps the regions disjoint if and only if the request fits somewhere. |
| `RegionSearch.BreaksIff` | Kernel/Memory/AddressSpace.cpp:53-88 | For any disjoint regions and any alignment that divides 2^64: the search stops at a place that wraps if and only if the request wraps from the range base, or fits nowhere, does not start again at zero, and wraps from behind some region. |
| `RegionSearch.RoomFinds` | Kernel/Memory/AddressSpace.cpp:53-88 | In particular, room behind the last region and the range base is enough. |
| `AddressSpaces.AddressSpace.AllocateRegion` | Kernel/Memory/AddressSpace.cpp:53-88 | Adds exactly the region that the search finds. Disjoint regions stay disjoint if and only if the request is harmless; with all regions at or above the range base the lowest fit is returned if and only if there is a fit, and, unless aligning wraps, disjointness is kept exactly then. |
| `Regions.PromiseAboveBase` | Kernel/Memory/AddressSpace.cpp:53-88 | With all regions at or above the range base, the result is the lowest aligned free place at or above that base. |
| `Regions.PromiseIff` | Kernel/Memory/AddressSpace.cpp:53-88 | In general the promise holds if and only if no aligned hole of the length lies between the end of the first region and the range base. |
| `RegionSearch.BelowBaseExample` | Kernel/Memory/AddressSpace.cpp:74-75 | With one region below the range base, the search returns an address below the base. |
| `RegionSearch.WrapExample` | Kernel/Memory/AddressSpace.cpp:134-143 | For any page address above 0x1000: a fixed region there, then a fixed request one page lower and as long as the rest of the address space, both succeed and overlap. |
| `AddressSpaces.AddressSpace.AllocateFixed` | Kernel/Memory/AddressSpace.cpp:134-143 | Succeeds exactly when the availability test passes for the page-rounded request, which without wrap-around is exactly when the place is free; disjointness is kept if and only if nothing is added or the request is not empty and ends below 2^64. |
| `RegionSearch.KeepsDisjointIff` | Kernel/Memory/AddressSpace.cpp:40-143 | Each request keeps the regions disjoint if and only if it is harmless, a condition on the request and the regions before it: an allocation that is not empty and does not break as above, a fixed request that the test rejects or that is not empty and does not wrap, or any erasure. |
| `RegionSearch.FixedOverlapIff` | Kernel/Memory/AddressSpace.cpp:134-143 | After a fixed request two regions have an address in common if and only if the test passed and the request wraps past a region with another base. |
| `RegionSearch.WrapAllocationExample` | Kernel/Memory/AddressSpace.cpp:53-88 | With a region one page behind the range base, an allocation as long as the rest of the address space succeeds and overlaps it. |
| `RegionSearch.RunDisjointIff` | Kernel/Memory/AddressSpace.cpp:40-143 | From the empty space, the regions are disjoint all along a run of allocations, fixed allocations and erasures if and only if every request of it is harmless where it is made. |
| `AddressSpaces.AddressSpace.Execute` | Kernel/Memory/AddressSpace.cpp:40-143 | The methods perform any such run as the specification says. |
| `AddressSpaces.AddressSpace.Find` | Kernel/Memory/AddressSpace.cpp:145-159 | The first region whose wrapping range has the address; of disjoint regions, the unique one that contains it, or nothing exactly when none does. |
| `Processes.MapRegionBacks` | Kernel/Memory/PageMap.cpp:132-141 | Mapping fresh frames behind a region backs every address of it and touches no other user page of any page map. |
| `Processes.RegionFlagBits` | Kernel/Memory/Region.cpp:12-23 | The attributes of a region make its pages writable and executable, and user accessible exactly if its access mode says so; those of a fork make them all three. |
| `Processes.Process.HandlePageFault` | Kernel/Memory/MM.cpp:194-212 | On success every address of the faulting region translates to the new physical base plus its offset, reads zero, also if the region was backed before, and may be written and executed, and accessed by the user if the region says so; no user page outside it and no byte of a frame in use changes, and only its record changes. Otherwise nothing changes. |
| `Processes.Process.CopyRegion` | Kernel/Scheduler/Process.cpp:445-463 | Gives one region fresh frames mapped in the child, filled from its physical base, and keeps all memory in use before. |
| `Processes.Process.Fork` | Kernel/Scheduler/Process.cpp:424-463 | The child can read every region, and reads the frames behind its physical base if they were in use: the bytes the parent sees in a backed region, and in an untouched one right exactly where those frames hold zero. The parent's view and the memory in use are unchanged. No frame is mapped in both lower halves if and only if no parent page lies in a frame handed out, which holds if all its frames were in use. |
| `Processes.CopyReads` | Kernel/Scheduler/Process.cpp:453-457 | Address by address: what the copy reads, compared with what the parent sees there, where a page that is not mapped yet counts as zero. |
| `Processes.CopyingStep` | Kernel/Scheduler/Process.cpp:445-463 | Copying one more region keeps all copies made so far, the parent's view, and all memory in use. |
| `Processes.ForkIsolatesIff` | Kernel/Scheduler/Process.cpp:443-463 | A child that maps exactly the frames handed out shares none with the parent if and only if no parent page lies in one of those. |
| `Processes.WriteIsolated` | Kernel/Scheduler/Process.cpp:443-463 | No write through one of two isolated page maps changes a read through the other, at any address. |
| `UserStack.PrepareStack` | Kernel/Library/ExecutableProgram.cpp:42-118 | Lays out the strings at the top and below them the pointer area, without overlap, and returns a 16-byte aligned stack pointer into the stack. |
| `UserStack.StackAligned` | Kernel/Library/ExecutableProgram.cpp:61-62 | The parity correction keeps the pointer 16-byte aligned for all counts. |
| `UserStack.ReadBack` | Kernel/Library/ExecutableProgram.cpp:42-118 | Reading the laid-out stack as section 3.4.1 of the System V AMD64 psABI prescribes gives back argc, argv, envp and the auxiliary vector with the types 5, 4, 3 and 9. |
| `Schedulers.ExactlyOnePlace` | Kernel/Scheduler/Scheduler.cpp:216-428 | A live thread is in exactly one of CPU, execution queue and blocked queue, once; a thread that is not live is in none. |
| `Schedulers.TickConserves` | Kernel/Scheduler/Scheduler.cpp:363-428 | A tick neither loses nor duplicates a thread. |
| `Schedulers.TickKeeps` | Kernel/Scheduler/Scheduler.cpp:363-428 | A tick restores the invariant even from a state in which the running thread has just blocked itself, and keeps the set of threads. |
| `Schedulers.TickRuns` | Kernel/Scheduler/Scheduler.cpp:363-428 | After a tick the first ready thread runs; with none ready, the thread that ran goes on running; only with neither the idle thread runs. The queues are what that leaves. |
| `Schedulers.BlockKeeps` | Kernel/Scheduler/Scheduler.cpp:216-222 | Blocking any live thread, running or queued, keeps the invariant and the set of threads. |
| `Schedulers.UnblockKeeps` | Kernel/Scheduler/Scheduler.cpp:223-238 | Unblocking keeps the invariant, whether the thread is parked or still queued. |
| `Schedulers.BlockEffect` | Kernel/Scheduler/Scheduler.cpp:216-222 | Blocking marks a queued thread where it is and changes nothing else; a running thread is blocked and queued if another is ready, and otherwise goes on running. |
| `Schedulers.UnblockEffect` | Kernel/Scheduler/Scheduler.cpp:223-238 | Unblocking readies a blocked thread in its place in the queue, or at the end of it, and takes it off the blocked queue. |
| `Schedulers.EnqueueKeeps` | Kernel/Scheduler/Scheduler.cpp:311-321 | Enqueueing a new thread adds exactly it, ready, at the end of the queue. |
| `Schedulers.Scheduler.EnqueueThread` | Kernel/Scheduler/Scheduler.cpp:311-321 | The code on queues and flags does what the specification says, and the enqueued flag holds exactly on the execution queue. |
| `Schedulers.Scheduler.EnqueueNotReady` | Kernel/Scheduler/Scheduler.cpp:323-332 | Appends the thread, readying it only if it was running. |
| `Schedulers.Scheduler.GetNextThread` | Kernel/Scheduler/Scheduler.cpp:351-362 | Pops the head and clears its flag. |
| `Schedulers.Scheduler.PickReadyThread` | Kernel/Scheduler/Scheduler.cpp:363-390 | Terminates with the first ready thread of the queue, having parked exactly the blocked ones before it; with none, returns the current or the idle thread. |
| `Schedulers.Scheduler.SwitchContext` | Kernel/Scheduler/Scheduler.cpp:391-412 | The outgoing thread goes to the back of the queue unless it is the idle or the chosen one. |
| `Schedulers.Scheduler.Tick` | Kernel/Scheduler/Scheduler.cpp:414-428 | The timer handler with its loop computes the specified next state. |
| `Schedulers.Scheduler.Block` | Kernel/Scheduler/Scheduler.cpp:216-222 | Marks the thread, and reschedules if it is the running one. |
| `Schedulers.Scheduler.Unblock` | Kernel/Scheduler/Scheduler.cpp:223-238 | Readies a blocked thread in place or moves it from the blocked queue to the end of the execution queue. |
| `SchedulerRuns.StepKeeps` | Kernel/Scheduler/Scheduler.cpp:216-428 | Every operation keeps the partition of threads and adds only newly enqueued ones. |
| `SchedulerRuns.RunKeeps` | Kernel/Scheduler/Scheduler.cpp:216-428 | In every reachable state each thread ever enqueued is in exactly one place. |
| `SchedulerRuns.StepAdvances` | Kernel/Scheduler/Scheduler.cpp:363-428 | No operation of others moves a ready thread back in the queue; every tick moves it forward or runs it. |
| `SchedulerRuns.RunsWithin` | Kernel/Scheduler/Scheduler.cpp:363-428 | A ready thread at position k runs within k+1 ticks, whatever enqueues, unblocks and blocks of others happen meanwhile. |
| `SchedulerRuns.RoundRobin` | Kernel/Scheduler/Scheduler.cpp:363-428 | With ticks alone it runs after exactly one more tick than there are ready threads before it, and not earlier. |
| `SchedulerRuns.IdleIff` | Kernel/Scheduler/Scheduler.cpp:385-386 | The idle thread runs after a tick if and only if no thread is ready and none was running. |
| `Events.WakeEffect` | Kernel/Scheduler/Event.cpp:108-113 | Unblocking the listeners readies exactly the blocked ones and changes no other thread's state. |
| `Events.TellEffect` | Kernel/Scheduler/Event.cpp:108-113 | Each listener is told the index of its own entry; no other thread is told anything. |
| `Events.AttachListings` | Kernel/Scheduler/Event.cpp:26-36 | Attaching lists the thread once per event under its own index. |
| `Events.DetachListings` | Kernel/Scheduler/Event.cpp:37-49 | After detaching, no event lists the thread. |
| `Events.TriggerCoherent` | Kernel/Scheduler/Event.cpp:97-117 | A trigger keeps the invariant, with and without listeners, dropped or kept. |
| `Events.StepCoherent` | Kernel/Scheduler/Event.cpp:12-117 | Every atomic step of await and trigger keeps: at most one listing per thread and event and only between attach and detach; pending plus immediate awaits equals kept triggers that found no listener; the reported index is that of the last trigger. |
| `Events.RunCoherent` | Kernel/Scheduler/Event.cpp:12-117 | The same in every interleaving of awaits, triggers, ticks and new threads. |
| `Events.PendingStep` | Kernel/Scheduler/Event.cpp:12-117 | A step adds one to the pending count of an event exactly if it is a trigger of it that is not dropped and meets no listener, and takes one exactly if it is an await whose first pending event it is. |
| `Events.PendingLaw` | Kernel/Scheduler/Event.cpp:12-117 | Along every run, what is pending plus what awaits took is what was pending at first plus the kept triggers that met no listener, both counted over the steps. |
| `LostWakeup.WakesExactly` | Kernel/Scheduler/Event.cpp:97-117 | A trigger wakes a sleeping thread if and only if the same event did not already trigger between its attaching and its blocking. |
| `LostWakeup.SleepLosesIff` | Kernel/Scheduler/Event.cpp:81-85 | Blocking loses the wake-up if and only if every awaited event triggered in that gap and another thread is ready. |
| `LostWakeup.DeafForever` | Kernel/Scheduler/Event.cpp:60-117 | A sleeper that no event lists stays blocked in every run. |
| `LostWakeup.WakeableIff` | Kernel/Scheduler/Event.cpp:60-117 | Some run wakes a sleeper if and only if one of its events did not trigger in the gap. |
| `LostWakeup.TriggerThenSleep` | Kernel/Scheduler/Event.cpp:81-85 | With one awaited event and another thread ready, a trigger in the gap always loses the wake-up. |
| `LostWakeup.LostWakeupExample` | Kernel/Scheduler/Event.cpp:81-85 | A run from a fresh start that loses a wake-up for good. |
| `EventTables.EventTable.CheckPending` | Kernel/Scheduler/Event.cpp:12-24 | Consumes the first pending event of the span, or changes nothing. |
| `EventTables.EventTable.AttachListeners` | Kernel/Scheduler/Event.cpp:26-36 | The loop lists the thread on every event of the span. |
| `EventTables.EventTable.DetachListeners` | Kernel/Scheduler/Event.cpp:37-49 | The nested loops remove exactly the thread's listings. |
| `EventTables.EraseListener` | Kernel/Scheduler/Event.cpp:41-46 | Erasing while skipping the next entry still removes every listing of the thread, because there is at most one. |
| `EventTables.EventTable.AwaitEnter` | Kernel/Scheduler/Event.cpp:60-83 | Returns the first pending index, or nothing if none is pending; attaches exactly when it then has to block, and changes nothing when it may not. |
| `EventTables.EventTable.AwaitSleep` | Kernel/Scheduler/Event.cpp:85-85 | The blocking step of an await is the specified one. |
| `EventTables.EventTable.AwaitLeave` | Kernel/Scheduler/Event.cpp:87-94 | Detaches; if any trigger named the thread since it attached, the index returned is that of the last such event. |
| `EventTables.EventTable.Trigger` | Kernel/Scheduler/Event.cpp:97-117 | The code with its loop over the listeners computes the specified next state: without listeners the pending count grows by one unless the trigger is dropped; otherwise it does not change and the listeners are cleared. No other event changes. |
| `Kasan.ScanPasses` | Kernel/Debug/Kasan.cpp:130-142 | The reference scan passes exactly when the one-byte check passes on every byte, addresses wrapping at 2^64. |
| `Kasan.ScanGranule` | Kernel/Debug/Kasan.cpp:130-160 | Within one granule the test of the last byte decides for all bytes and reports the same shadow. |
| `Kasan.Check2Scans` | Kernel/Debug/Kasan.cpp:143-160 | The two-byte check equals the scan, verdict and report, for every address, shadow and signedness. |
| `Kasan.Check4Scans` | Kernel/Debug/Kasan.cpp:161-178 | The same for four bytes, straddling accesses included. |
| `Kasan.Check8Scans` | Kernel/Debug/Kasan.cpp:179-196 | The same for eight bytes. |
| `Kasan.CheckN` | Kernel/Debug/Kasan.cpp:197-223 | Bytes, whole granules, bytes: the three loops give the verdict and report of the scan for every address and size. |
| `Kasan.Sanitizer.CheckShadowBytes` | Kernel/Debug/Kasan.cpp:225-253 | Reports a violation exactly when checking is on, the address is in the checked range and some byte of the access fails; the report is that of the first failing byte. |
| `Kasan.Sanitizer.FillShadow` | Kernel/Debug/Kasan.cpp:93-104 | Marks exactly the granules of the range. |
| `Kasan.Sanitizer.MarkRegion` | Kernel/Debug/Kasan.cpp:105-128 | Writes the shadow of a region whose first bytes are valid, and no other shadow byte. |
| `Kasan.MarkedAccepts` | Kernel/Debug/Kasan.cpp:105-142 | In a marked region a byte is accepted if it is valid, or, when compared unsigned, if it lies in a poisoned granule. |
| `Kasan.PromiseIff` | Kernel/Debug/Kasan.cpp:105-142 | A marked region admits exactly its valid bytes if and only if the comparison is signed or there is no poisoned granule. |
| `Kasan.RedzoneExample` | Kernel/Debug/Kasan.cpp:130-142 | As coded, an access just behind an eight-byte object with a redzone is accepted. |
| `Png.PaethNearest` | Kernel/Library/Image.hpp:76-86 | The predictor is the neighbour nearest to left + above - upper left, ties in the order left, above, upper left. |
| `Png.ReconstructedByte` | Kernel/Library/Image.cpp:239-258 | The byte equations of section 9.2 of the PNG specification for the five filter numbers, for every byte of the reconstructed row. |
| `Png.ReconstructInverts` | Kernel/Library/Image.cpp:233-260 | Reconstruction recovers the original row modulo 256, for every filter, pixel size and row above. |
| `Png.FilterInverts` | Kernel/Library/Image.cpp:233-260 | Filtering the reconstructed row gives the filtered row back. |
| `Png.PartlyStep` | Kernel/Library/Image.cpp:239-258 | Reconstructing the next byte in place uses only bytes that are final or untouched. |
| `Png.UnfilterScanline` | Kernel/Library/Image.cpp:233-260 | The in-place loop replaces the row by its reconstruction and leaves the rest of the buffer alone. |
| `Png.ImageRoundTrip` | Kernel/Library/Image.cpp:177-232 | The rows decoded from the encoding of any image, with any choice of filter per row, are its rows, whatever follows it. |
| `Png.DecodedRow` | Kernel/Library/Image.cpp:200-229 | Each row is reconstructed with its own filter byte and four bytes per pixel against the row before, the first one against zeros. |
| `Png.EncodedFilters` | Kernel/Library/Image.cpp:200-209 | The filter bytes of an encoding are accepted if and only if every chosen filter is one of the five. |
| `Png.DefilterEncoded` | Kernel/Library/Image.cpp:177-232 | Decoding an encoded image gives exactly its pixels if every row uses one of the five filters, and fails otherwise. |
| `Png.Defilter` | Kernel/Library/Image.cpp:177-232 | Fails exactly on a short stream or an unknown filter; otherwise the buffer holds the decoded rows. |

## Left out

- Decompressor: growing the output buffer (it reallocates without copying, Kernel/Library/ZLib.cpp:175-190) and stored blocks (after which the code goes on to decode tokens with the old trees) end the modelled run with a status of their own; the zlib wrapper and the Adler-32 sum, which is only logged, are not modelled.
- Decompressors.Decompressor.ReadItems: a repetition before any length, and an item that leaves the 320-entry buffer, end the modelled loop as failures of their own kind; what the code reads and writes outside the buffer there is not modelled.
- BitStream: bits past the end of the input read as zero; the Prism source of the stream is not part of this model.
- Prism containers: lists, trees, deques and maps are sequences and maps; `BitStream`, `Buffer` and `Math` are exact.
- Page tables: large pages, cache-attribute decoding, `SetFlags`, `Remap` and TLB maintenance; map calls ask for 4 KiB pages, frames are page-aligned and below 2^52.
- PageMaps.PageTables.DestroyPageMap: not for the kernel's own page map, which the others share.
- PageMaps.PageTables: table memory comes from a supply of fresh zeroed frames large enough for the call, so mapping does not fail and the roll-back in `MapRange` is not reached.
- Physical memory: frame allocation returns a fresh zeroed block or fails, without a placement policy; the kernel heap is not modelled.
- AddressSpaces.AddressSpace.AllocateRegion: an alignment of zero, which is the default and what Kernel/Memory/MM.cpp:158 passes, is not covered, because `Math::AlignUp` is not part of this model and what it does with zero is not known; for other alignments it is the next multiple, modulo 2^64.
- AddressSpaces.AddressSpace.FindPlace: the same.
- AddressSpaces.AddressSpace.Insert: an entry under an existing base replaces it; the Prism tree is not part of this model.
- Processes.Process.Fork: what the child reads in a region whose physical base lies in frames that were not in use; `munmap` itself; the failure of an allocation, on which the code panics, only ends the model's call. Process and thread objects, credentials and file descriptors are not modelled.
- RegionSearch.KeepsDisjointIff: for alignments that do not divide 2^64, which no caller passes, the condition looks at the region found.
- Processes.Process.HandlePageFault: only the path with a region; the reporting of other faults is not modelled.
- UserStack.PrepareStack: the stack is zeroed, page-aligned and large enough; strings contain no NUL.
- Scheduler: one CPU, preemption enabled, live threads only: dead threads, signals, `Yield` without saving, `DequeueThread` and process tables are not modelled. Blocking and the tick it causes are one step, so an interrupt between the two is excluded; the interrupt sent by `Unblock` is a separate tick.
- Schedulers.Scheduler.EnqueueThread: called for new threads, as its callers do.
- Events: the events of one await are distinct; locks and the interrupt flag are not modelled (a trigger without listeners returns with interrupts off).
- Kasan.Sanitizer.MarkRegion: the rounded valid size does not exceed the total size.
- Kasan: the stack and global hooks of the compiler, and the printing of reports.
- PNG: interlacing, palettes, sixteen-bit samples and fewer than four channels, whose rows are widened in place; chunk parsing and CRCs.
- Path resolution, file systems, terminals, drivers, ELF loading, system calls and boot code.
