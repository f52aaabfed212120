# UefiNexus: a model of the memory viewer's core

UefiNexus browses and edits physical memory from a UEFI shell. This project models the stack
beneath its PageMem screen, from the bits of an address mask to a whole session of key presses,
and proves it correct in the sense below. The model follows the C code: the same branches,
constants, sentinels, wrap-arounds and error results, with 64-bit values bounded explicitly.

* **Navigation.** `MemoryMap` defines the reference: a page is valid when it is aligned and lies in
  one browsable descriptor, and the next and previous page are found by stepping one page at a
  time. `NexusMemLib` and `AddressMap` are the two implementations, loops over an unsorted
  descriptor table. The first meets the reference on every map. The second is specified on every
  map by what its loops compute, wrap-arounds included (`LoopNext`, `LoopPrev`); `Navigation` says
  what that is: composed with the re-check of the page keys it is the reference on every map,
  unaligned or not, except where an entry in the last page of the address space shadows a page, and
  without the re-check there is one more exception at the very top of the address space.
* **Access.** `AccessPolicy` intersects the memory-type policy with the attributes the firmware
  reports; `PhysicalMemory` is a little-endian byte memory. A verdict about a page decides every
  access inside the page, and no permitted write reaches a byte that is outside all writable
  descriptors or reported read-only.
* **Copies.** `DescriptorBuffer` decodes the raw map at the firmware's stride; `Adapters` holds the
  two bounded copies of it and shows that all lookups agree.
* **Session.** `Session` is the state machine over keys, `HexInput` the hexadecimal prompt, `Commands`
  says what each key does in terms of scan codes, characters and the keys typed after it,
  `StateMachine` and `Controller` the objects that carry the state. The imperative run loop is
  proved equal to the state machine for every map, so its invariants (protected bytes never
  change, caches are never stale, the cursor is always well placed) hold of the program that draws,
  reads keys and writes memory. `Start` says where a session begins and that the page keys alone
  reach every valid page.
* **Screen.** `Text` and `Format` print and parse, `Picture` says which character every screen
  position must show, `Screen` which byte, address or type can be read there, `View` draws into a
  character grid and is proved to produce that picture, and `Redraw` says exactly when the arrow
  keys' partial redraw gives the same screen as a full one, for one key and over whole runs: at most
  one cell is ever wrong, and it is known which. `StaleCell` is a run that leaves one.

Memory, the memory map and the attribute protocol are inputs; the protocol is an arbitrary
function from ranges to replies. Keys are one finite stream that commands and prompts consume in
order; a run stops where the stream ends.

## Where the code differs from what is written about it

* A missing or failed attribute query leaves a range unknown and denied
  (`UefiNexusPkg/Library/NexusMemLib/MemMap.c:345-376`), although
  `UefiNexusPkg/Include/Library/NexusMemLib.h:42-46` and `docs/testing.md:77-81` say that the tool
  policy then still applies. The model follows the code. `ReadsAsDocumentedIff` and
  `WritesAsDocumentedIff` say exactly when the code does what is written: where the tool policy
  denies anyway, or the firmware reports attributes for the range. `MissingProtocolDenies` is an
  input where it does not. With firmware that never reports, no session changes memory
  (`SilentRunKeepsMemory`) and no cell shows a value (`SilentCellsAreBlank`).
* Goto accepts every address (`UefiNexusPkg/UI/Pages/PageMem/PageMemActions.c:211-212`), although
  `UefiNexusPkg/UI/Pages/PageMem/PageMemLayered.h:95` asks for a valid page. The target is valid
  exactly when the page of the typed address is (`GotoPageIsValidIff`), and sixteen digits F reach
  an invalid page on every map (`GotoLandsOnInvalidPage`). The session invariants are proved with
  Goto landing anywhere.
* The core's "next page" lets the page end wrap (`UefiNexusPkg/UI/Pages/PageMem/Core/AddressMap.c:218-219`).
  `CoreNextIsSuccessorUnlessTop` says exactly when the result is wrong: the candidate is the topmost
  page of the address space and the map has a usable descriptor; `LoopNextAtTheTop` is such an
  input. The re-check of the page keys removes this deviation.
* The core rounds the start of an entry up to a page without checking for overflow
  (`UefiNexusPkg/UI/Pages/PageMem/Core/AddressMap.c:187-197`). For an entry that starts in the last
  page of the address space the result is 0, so the loops take it to reach from 0 to its wrapped
  end. `RecheckedNextIsExactIff` and `RecheckedPreviousIsExactIff` say for every map and page exactly
  when a page key is wrong because of that: the entry offers an invalid page before the nearest valid
  one; the key then does nothing. `LateEntryShadowsNext`, `LateEntryShadowsPrev` and
  `LateEntryStopsPageDown` are such inputs, and `ExactUpwardsIff` is the condition on the map alone.
* The core checks no page count before shifting it. Its range check and the memory library's page
  check accept the same ranges if and only if every range offered by a browsable entry whose shifted
  count wrapped, without becoming 0 or passing the end of the address space, lies in a usable
  descriptor anyway (`RangeChecksAgreeIff`); `HugeCountSplitsTheChecks` is a map where they differ.
* The session starts at the first browsable entry in map order, the library's first valid address is
  the lowest usable one. They are equal exactly under `FirstAddressesAgreeIff`; with an empty entry in
  front the session starts on an invalid page (`EmptyEntryMisleads`).
* The partial redraw is exact if and only if the old offset was a multiple of the width, or its
  cell is repainted as the new one, or that cell shows no value (`FastPathAgreesIff`). Only Goto can
  leave a misaligned offset behind, and five keys do leave a wrong cell (`GotoLeavesStaleCell`). It
  stays wrong until the cursor enters it or the page is redrawn (`NextStale`, `StaleAfter`).

## Model

| member | source | states |
|---|---|---|
| NexusMemLib.AlignDown | UefiNexusPkg/Library/NexusMemLib/MemMap.c:201-207 | the bit mask yields the greatest multiple of the alignment not above the address |
| Words.MaskDownIsFloor | UefiNexusPkg/Library/NexusMemLib/MemMap.c:201-207 | for every power of two, clearing the low bits with and-not equals subtracting the remainder |
| Words.MaskIsRemainder | UefiNexusPkg/Library/NexusMemLib/MemAccess.c:45-51 | for a power of two, the and with width - 1 is the remainder |
| AccessPolicy.AttributeTest | UefiNexusPkg/Library/NexusMemLib/MemMap.c:365-370 | testing the RP, RO and XP masks with and is testing the single attribute bit each names |
| AccessPolicy.ReportedVerdict | UefiNexusPkg/Library/NexusMemLib/MemMap.c:318-379 | where the firmware answers, reading, writing and executing are allowed exactly by the type number of the deciding entry and the tests of bits 13, 17 and 14 |
| AccessPolicy.UnknownVerdict | UefiNexusPkg/Library/NexusMemLib/MemMap.c:318-360 | the verdict is known if and only if an entry holds the whole range and the firmware answers; otherwise nothing is allowed and the status names the reason |
| AccessPolicy.AccessStatuses | UefiNexusPkg/Library/NexusMemLib/MemAccess.c:55-123 | reads and writes succeed exactly on aligned, allowed accesses of 1, 2, 4 or 8 bytes, and denial is reported before misalignment |
| MemoryMap.NextPageIsSuccessor | UefiNexusPkg/Library/NexusMemLib/MemMap.c:504-566 | the reference "next page" is the one least valid page above the current one, or the current page when there is none |
| MemoryMap.PrevPageIsPredecessor | UefiNexusPkg/Library/NexusMemLib/MemMap.c:570-650 | the reference "previous page" is the one greatest valid page below the current one, page 0 included, or the current page |
| MemoryMap.FirstCandidateSuffices | UefiNexusPkg/Library/NexusMemLib/MemMap.c:528-563 | once the adjacent page is invalid, a descriptor holding any valid page further up offers its first aligned page, which is no higher |
| MemoryMap.LastCandidateSuffices | UefiNexusPkg/Library/NexusMemLib/MemMap.c:594-649 | once the adjacent page is invalid, a descriptor holding a valid page further down offers its last aligned page, which is no lower and strictly below the adjacent page |
| MemoryMap.NextThenPrevious | UefiNexusPkg/Library/NexusMemLib/MemMap.c:504-650 | from a valid page, "next" and "previous" undo each other in both orders whenever they move |
| MemoryMap.FirstValidIsLeastPage | UefiNexusPkg/Library/NexusMemLib/MemMap.c:471-500 | on maps of whole frames the first valid address is the least valid page, and 0 when no page is valid |
| MemoryMap.WalkEnumerates | UefiNexusPkg/Library/NexusMemLib/MemMap.c:504-566 | iterating "next" from a valid page lists exactly the valid pages from there on, each once, increasing, and ends in a fixpoint |
| MemoryMap.TourVisitsEveryPage | UefiNexusPkg/Library/NexusMemLib/MemMap.c:471-566 | iterating "next" from the first valid address visits every valid page of the map exactly once in increasing order |
| NexusMemLib.NextScanComplete | UefiNexusPkg/Library/NexusMemLib/MemMap.c:521-565 | the minimum over one candidate per descriptor, with MAX_UINT64 meaning none, is the exact successor |
| NexusMemLib.PrevScanComplete | UefiNexusPkg/Library/NexusMemLib/MemMap.c:586-649 | the maximum over one clipped candidate per descriptor, guarded by the found flag, is the exact predecessor |
| NexusMemLib.MemLib.GetNextValidPageAddress | UefiNexusPkg/Library/NexusMemLib/MemMap.c:504-566 | on any map (unsorted, overlapping, empty or overflowing entries) and any power-of-two page size: the exact successor; the address itself without a map or page size |
| NexusMemLib.MemLib.GetPreviousValidPageAddress | UefiNexusPkg/Library/NexusMemLib/MemMap.c:570-650 | on any map and power-of-two page size: the exact predecessor, with no intermediate value leaving the 64-bit range |
| NexusMemLib.MemLib.GetFirstValidAddress | UefiNexusPkg/Library/NexusMemLib/MemMap.c:471-500 | the least start of a usable descriptor, 0 when there is none |
| NexusMemLib.MemLib.IsPageValid | UefiNexusPkg/Library/NexusMemLib/MemMap.c:420-467 | true exactly when the whole page of the address lies in one usable descriptor; overflow guards never change the answer |
| NexusMemLib.MemLib.FindDescriptorForRange | UefiNexusPkg/Library/NexusMemLib/MemMap.c:67-105 | the first descriptor in map order that contains the whole range; none for empty or overflowing ranges |
| NexusMemLib.MemLib.IsToolRangeReadable | UefiNexusPkg/Library/NexusMemLib/MemMap.c:109-136 | the deciding descriptor has a readable type |
| NexusMemLib.MemLib.IsToolRangeWritable | UefiNexusPkg/Library/NexusMemLib/MemMap.c:140-165 | the deciding descriptor has a writable type |
| NexusMemLib.MemLib.QueryMemoryAccess | UefiNexusPkg/Library/NexusMemLib/MemMap.c:318-379 | the specified verdict for all outcomes: bad range, no descriptor, no protocol, refused query, attributes reported with success or with a warning |
| NexusMemLib.MemLib.IsRangeValid | UefiNexusPkg/Library/NexusMemLib/MemMap.c:392-402 | true exactly when the verdict is known and allows reading |
| NexusMemLib.MemLib.IsRangeWritable | UefiNexusPkg/Library/NexusMemLib/MemMap.c:406-416 | true exactly when the verdict is known and allows writing |
| NexusMemLib.MemLib.SetMemoryMap | UefiNexusPkg/Library/NexusMemLib/MemMap.c:233-243 | stores whatever it is given; when the entries lie inside the buffer, as with every stride and size firmware may use, the map is afterwards the one the buffer encodes at its stride, or empty without a buffer or stride |
| DescriptorBuffer.FullStrideIsReadable | UefiNexusPkg/Library/NexusMemLib/MemMap.c:233-243 | every stride of at least a descriptor and every size within the buffer keep all entries inside the buffer |
| DescriptorBuffer.DecodesTo | UefiNexusPkg/Library/NexusMemLib/MemMap.c:84-103 | a buffer whose bytes hold, one stride apart, type, physical start, page count and attributes of each entry at 0, 8, 24 and 32 is decoded to exactly these entries |
| DescriptorBuffer.EncodedMapDecodes | UefiNexusPkg/Library/NexusMemLib/MemMap.c:84-103 | round trip: a map stored at any stride of at least 40 bytes over any bytes is decoded to the stored map |
| NexusMemLib.MemLib.SetMemoryAttributeProtocol | UefiNexusPkg/Library/NexusMemLib/MemMap.c:167-252 | installs the protocol and nothing else; without one the platform's own protocol is the one queries find again |
| NexusMemLib.IsAligned | UefiNexusPkg/Library/NexusMemLib/MemAccess.c:45-51 | true exactly for multiples of a supported width |
| NexusMemLib.MemLib.MemRead | UefiNexusPkg/Library/NexusMemLib/MemAccess.c:55-90 | status by the order width, access, alignment; the little-endian value on success and 0 otherwise |
| NexusMemLib.MemLib.MemWrite | UefiNexusPkg/Library/NexusMemLib/MemAccess.c:94-123 | memory afterwards is the little-endian store on success and unchanged otherwise |
| PhysicalMemory.StoreInPlace | UefiNexusPkg/Library/NexusMemLib/MemAccess.c:107-122 | storing 1, 2, 4 or 8 bytes in place leaves the specified little-endian memory |
| AccessPolicy.ReadAfterWrite | UefiNexusPkg/Library/NexusMemLib/MemAccess.c:55-123 | a permitted write followed by a permitted read of the same width returns the value modulo 256^width |
| AccessPolicy.WriteIsLocal | UefiNexusPkg/Library/NexusMemLib/MemAccess.c:94-123 | a byte changes only when the write is permitted and the byte is inside the addressed range |
| AccessPolicy.ReadSplits | UefiNexusPkg/Library/NexusMemLib/MemAccess.c:55-90 | a read of 2w bytes is the little-endian join of its two reads of w bytes |
| AccessPolicy.WriteBackIsIdentity | UefiNexusPkg/Library/NexusMemLib/MemAccess.c:55-123 | writing back the value just read leaves memory as it was |
| AccessPolicy.SubrangeDescriptor | UefiNexusPkg/Library/NexusMemLib/MemMap.c:67-105 | with disjoint descriptors every nonempty part of a range is decided by the descriptor of the range |
| AccessPolicy.SubrangeVerdict | UefiNexusPkg/Library/NexusMemLib/MemMap.c:318-416 | with disjoint descriptors and a consistent protocol a known verdict holds unchanged for every nonempty part of the range |
| AccessPolicy.PageVerdictGovernsCells | UefiNexusPkg/Library/NexusMemLib/MemAccess.c:55-123 | a known page verdict decides every aligned access in the page: allowed means it succeeds, denied means it fails |
| AccessPolicy.WriteNeedsWritableDescriptor | UefiNexusPkg/Library/NexusMemLib/MemMap.c:140-165 | every byte of a permitted write lies in a descriptor of a writable type |
| AccessPolicy.ReadOnlyStopsWrites | UefiNexusPkg/Library/NexusMemLib/MemMap.c:318-416 | with a consistent protocol no write that touches a byte of a range reported read-only is permitted |
| AccessPolicy.DisjointRulesAreConsistent | UefiNexusPkg/Tests/Mock/MemoryAttributeMock.c:28-66 | a protocol given by a table of disjoint rules satisfies the consistency law the other results assume |
| AccessPolicy.ReadsAsDocumentedIff | UefiNexusPkg/Include/Library/NexusMemLib.h:42-46 | a range is readable as the header describes if and only if the tool policy denies reading it or the firmware reports attributes for it |
| AccessPolicy.WritesAsDocumentedIff | UefiNexusPkg/Include/Library/NexusMemLib.h:42-46 | the same for writing |
| AccessPolicy.MissingProtocolDenies | UefiNexusPkg/Library/NexusMemLib/MemMap.c:345-376 | an input where the code and the header differ: conventional memory without a protocol should be readable and writable and is neither |
| AddressMap.RangeCheckAgrees | UefiNexusPkg/UI/Pages/PageMem/Core/AddressMap.c:106-154 | on maps whose page counts fit, the core's range check accepts exactly the ranges inside one usable descriptor |
| AddressMap.RangeChecksAgreeIff | UefiNexusPkg/UI/Pages/PageMem/Core/AddressMap.c:106-154 | on any map the core's range check and the memory library's page check accept the same ranges if and only if no browsable entry with a wrapped count offers memory outside the usable descriptors |
| AddressMap.HugeCountSplitsTheChecks | UefiNexusPkg/UI/Pages/PageMem/Core/AddressMap.c:106-154 | a concrete map with a page count above 2^52 that the core accepts and the memory library rejects |
| AddressMap.ChecksAreShifted | UefiNexusPkg/UI/Pages/PageMem/Core/AddressMap.c:106-250 | on any map both of the core's checks accept exactly the ranges inside one usable entry, where the size of an entry is what its shifted page count keeps |
| AddressMap.PageCheckAgrees | UefiNexusPkg/UI/Pages/PageMem/Core/AddressMap.c:203-250 | where page counts fit, the core's page check is the page check, except on the topmost page, where it only says that some descriptor is usable |
| AddressMap.NavigationIsAligned | UefiNexusPkg/UI/Pages/PageMem/Core/AddressMap.c:253-395 | on any map, wrapping and unaligned entries included, both loops answer a page boundary, the next one not below and the previous one not above the current page |
| Navigation.RecheckedNext | UefiNexusPkg/UI/Pages/PageMem/PageMemActions.c:251-279 | on any map, from any page boundary: re-checked, "next" is the next page the core can browse, or stays when that page is shadowed |
| Navigation.RecheckedNextIsExactIff | UefiNexusPkg/UI/Pages/PageMem/PageMemActions.c:251-279 | it is the exact successor if and only if it is not shadowed: the adjacent page is invalid, the wrapped end of an entry in the last page reaches past it, and there is a valid page further up |
| Navigation.ExactUpwardsIff | UefiNexusPkg/UI/Pages/PageMem/PageMemActions.c:251-279 | "next" is exact from every page of a map if and only if every page but the first inside a wrapped end is valid or has no valid page beyond it |
| Navigation.LateEntryShadowsNext | UefiNexusPkg/UI/Pages/PageMem/Core/AddressMap.c:253-319 | an input of the shadow: an entry ten bytes below the end of the address space and a valid page at 0x10000, seen from page 0 |
| Navigation.RecheckedPrevious | UefiNexusPkg/UI/Pages/PageMem/PageMemActions.c:220-248 | on any map: re-checked, "previous" is the previous page the core can browse, or stays when that page is shadowed |
| Navigation.RecheckedPreviousIsExactIff | UefiNexusPkg/UI/Pages/PageMem/PageMemActions.c:220-248 | it is the exact predecessor if and only if it is not shadowed: there are valid pages below, and an entry in the last page offers a page above all of them |
| Navigation.LateEntryShadowsPrev | UefiNexusPkg/UI/Pages/PageMem/Core/AddressMap.c:322-395 | an input of the shadow in the other direction |
| Navigation.HarmlessWrapsNavigate | UefiNexusPkg/UI/Pages/PageMem/Core/AddressMap.c:253-395 | where wrapped page counts are harmless the pages the core can browse are navigated like the map's own |
| Navigation.LoopNextIsCoreNext | UefiNexusPkg/UI/Pages/PageMem/Core/AddressMap.c:253-319 | where page counts fit and no entry starts in the last two pages, aligned or not, the loop alone computes the successor, up to the deviation of the next row |
| AddressMap.CoreNextIsSuccessorUnlessTop | UefiNexusPkg/UI/Pages/PageMem/Core/AddressMap.c:253-319 | the core's "next" is the exact successor if and only if the page after the current one is not the topmost page or no descriptor is usable |
| Navigation.LoopNextAtTheTop | UefiNexusPkg/UI/Pages/PageMem/Core/AddressMap.c:203-319 | an input where it is not: from the page below the topmost one the loop moves to the topmost one, which is invalid |
| Navigation.LoopPrevIsPrevPage | UefiNexusPkg/UI/Pages/PageMem/Core/AddressMap.c:322-395 | on any map without an entry in the last page, and page sizes up to 2048, the loop alone computes the exact predecessor; its zero sentinel hides no page |
| Navigation.UncheckedEnd | UefiNexusPkg/UI/Pages/PageMem/Core/AddressMap.c:291-300 | for every entry the unchecked end is the true end when the shifted entry fits, and not above the start otherwise, so that the checked code's skips are the loops' skips |
| Navigation.LastPageIsNotZero | UefiNexusPkg/UI/Pages/PageMem/Core/AddressMap.c:345-394 | for page sizes up to 2048 no entry that fits contributes page 0 to the "previous" loop, so the zero sentinel hides no page |
| AddressMap.AddressMap.Init | UefiNexusPkg/UI/Pages/PageMem/Core/AddressMap.c:16-30 | takes over a nonempty table, and changes nothing when the table is missing or empty |
| AddressMap.AddressMap.IsRangeValid | UefiNexusPkg/UI/Pages/PageMem/Core/AddressMap.c:106-154 | true exactly for nonempty, non-wrapping ranges inside one browsable entry |
| AddressMap.AddressMap.IsAddressValid | UefiNexusPkg/UI/Pages/PageMem/Core/AddressMap.c:63-103 | the separately written address check is the range check of one byte |
| AddressMap.AddressMap.GetFirstValidAddress | UefiNexusPkg/UI/Pages/PageMem/Core/AddressMap.c:157-178 | the start of the first browsable entry in map order, 0 when there is none |
| AddressMap.AddressMap.IsPageValid | UefiNexusPkg/UI/Pages/PageMem/Core/AddressMap.c:203-250 | the core's page check with its wrapping page end |
| AddressMap.AddressMap.GetNextValidPageAddress | UefiNexusPkg/UI/Pages/PageMem/Core/AddressMap.c:253-319 | on every map and power-of-two page size: the specified loop result, whose exactness and alignment are stated above |
| AddressMap.AddressMap.GetPreviousValidPageAddress | UefiNexusPkg/UI/Pages/PageMem/Core/AddressMap.c:322-395 | on every map and power-of-two page size: the specified loop result, whose exactness and alignment are stated above |
| Adapters.MapMemoryTypeKeepsBrowsability | UefiNexusPkg/Adapter/Uefi/MemAdapter.c:49-78 | for every 32-bit type the converted type is browsable exactly when the original is |
| Adapters.CoreMapKeepsEntries | UefiNexusPkg/Adapter/Uefi/MemAdapter.c:49-142 | the copy holds the first 128 entries in order with start, size, attributes and type number, and the core type that stands for that number |
| Adapters.CoreMapHasSamePages | UefiNexusPkg/Adapter/Uefi/MemAdapter.c:106-142 | the core's copy of a map of at most 128 entries has the same pages, the same usable entries and is well-formed exactly when the original is |
| Adapters.NavigationAgrees | UefiNexusPkg/UI/Pages/PageMem/Core/AddressMap.c:253-395 | next and previous page over the core's copy are those of the firmware map |
| Adapters.LookupsAgree | UefiNexusPkg/Adapter/Uefi/MemAdapter.c:210-245 | the adapter's type lookup is the memory library's descriptor search, and the core's range check on a page is the memory library's page check |
| Adapters.UefiBridge.InitMemoryMap | UefiNexusPkg/Adapter/Uefi/UefiBridge.c:64-113 | the compact table holds the first 128 entries in order and with their content, whatever the stride of the source |
| Adapters.UefiBridge.QueryMemoryAccess | UefiNexusPkg/Adapter/Uefi/UefiBridge.c:171-197 | delivers the verdict of the memory library unchanged |
| Adapters.UefiBridge.MemRead | UefiNexusPkg/Adapter/Uefi/UefiBridge.c:137-158 | delivers status and value of the memory library, and 0 on failure |
| Adapters.MemAdapter.Init | UefiNexusPkg/Adapter/Uefi/MemAdapter.c:106-142 | the core table is the converted prefix of the firmware map, in order, and the old table stays when no map is loaded; reports not-found exactly for an empty map |
| Adapters.MemAdapter.GetMemoryTypeAtAddress | UefiNexusPkg/Adapter/Uefi/MemAdapter.c:210-245 | the type of the first entry that contains the address, or not found |
| Text.ParseDumpText | UefiNexusPkg/UI/Pages/PageMem/Core/FormatEngine.c:37-75 | the byte dump parses back to the bytes |
| Text.ParseCellDigits | UefiNexusPkg/UI/Pages/PageMem/Core/FormatEngine.c:86-125 | the digits of a cell parse back to the value modulo 256^width |
| Text.CellDigitsAt | UefiNexusPkg/UI/Pages/PageMem/Core/FormatEngine.c:86-125 | byte k of a value is printed at the k-th digit pair from the right |
| Text.ValueBytesOfLoad | UefiNexusPkg/UI/Pages/PageMem/Core/FormatEngine.c:105-124 | splitting a loaded value into bytes recovers the bytes of memory |
| Text.AddressTextRoundTrip | UefiNexusPkg/UI/Pages/PageMem/Core/FormatEngine.c:170-196 | a printed address parses back to all 64 bits |
| Text.DecimalRoundTrip | UefiNexusPkg/Core/UefiMemoryType.c:50-86 | the decimal digits of a number parse back to the number |
| Text.TypeNameFits | UefiNexusPkg/Core/UefiMemoryType.c:89-101 | every type name, known or not, fits the 32-byte buffer its callers use |
| Text.UnknownNameParses | UefiNexusPkg/Core/UefiMemoryType.c:50-86 | the number inside an unknown type's name parses back to the type |
| Text.TypeNamesAreInjective | UefiNexusPkg/Core/UefiMemoryType.c:89-101 | two 32-bit types with the same name in a 32-byte buffer are equal |
| Text.NamesOfPrograms | UefiNexusPkg/Core/UefiMemoryType.c:10-25 | the names of code and data types belong to their UEFI numbers |
| Text.NamesOfMemory | UefiNexusPkg/Core/UefiMemoryType.c:10-25 | and so do those of the other types |
| Text.AccessTextTells | UefiNexusPkg/Core/UefiMemoryType.c:104-130 | the access text is Unknown exactly for unknown verdicts; otherwise R in front and W behind stand exactly for allowed reading and writing |
| Text.HexTextIsUpperCase | UefiNexusPkg/UI/Pages/PageMem/PageMemView.c:71-85 | numerals are printed in capital letters, so that with the parser their text is determined |
| Format.FormatBytes | UefiNexusPkg/UI/Pages/PageMem/Core/FormatEngine.c:37-75 | for every buffer size the text holds exactly min(size, (capacity - 1) / 3) bytes, without trailing space, terminated and in bounds |
| Format.FormatValueLE | UefiNexusPkg/UI/Pages/PageMem/Core/FormatEngine.c:86-125 | prints the bytes of the value highest first, or nothing when the buffer is too short |
| Format.FormatOffsetHeader | UefiNexusPkg/UI/Pages/PageMem/Core/FormatEngine.c:128-167 | prints the in-row offsets of a cell highest first, in the columns of the cell's bytes |
| Format.FormatAddress | UefiNexusPkg/UI/Pages/PageMem/Core/FormatEngine.c:170-196 | prints the prefixed 16-digit address whenever 19 characters fit, and the empty string otherwise |
| Format.CopyString | UefiNexusPkg/Core/UefiMemoryType.c:29-46 | copies the longest prefix that fits, terminated |
| Format.FormatUnknownType | UefiNexusPkg/Core/UefiMemoryType.c:50-86 | writes the longest prefix of the unknown type's name that fits, terminated |
| Format.MemoryTypeFormat | UefiNexusPkg/Core/UefiMemoryType.c:89-101 | writes the prefix of length min(name length, size - 1) of the type's name, terminated |
| Format.MemoryAccessFormat | UefiNexusPkg/Core/UefiMemoryType.c:104-130 | writes the prefix of the access text that fits, terminated |
| Format.AppendString | UefiNexusPkg/UI/Pages/PageMem/PageMemView.c:48-68 | appending to a bounded buffer is appending to the text and clipping the result |
| Format.AppendHexFixed | UefiNexusPkg/UI/Pages/PageMem/PageMemView.c:71-89 | appends the fixed-width hexadecimal digits, clipped |
| Format.AppendDecimal | UefiNexusPkg/UI/Pages/PageMem/PageMemView.c:92-111 | appends the decimal digits, clipped |
| HexInput.PromptMeaning | UefiNexusPkg/Library/TuiLib/TuiInput.c:87-134 | Enter delivers the number of the digits that survive backspaces and the length limit, Escape delivers nothing, and without either the prompt waits |
| HexInput.PromptBound | UefiNexusPkg/Library/TuiLib/TuiInput.c:87-134 | every delivered value is below 16^MaxDigits and at least one key was consumed |
| HexInput.BackspaceUndoes | UefiNexusPkg/Library/TuiLib/TuiInput.c:118-131 | a backspace undoes the digit typed before it if and only if the digit was not dropped by the limit |
| HexInput.OtherKeysAreIgnored | UefiNexusPkg/Library/TuiLib/TuiInput.c:119-132 | a key that is neither a hexadecimal digit nor a backspace changes nothing anywhere in the typed keys, nor does a backspace without digits |
| HexInput.SurvivingDigits | UefiNexusPkg/Library/TuiLib/TuiInput.c:119-127 | of digits typed in a row the first MaxDigits survive |
| HexInput.TypingDigits | UefiNexusPkg/Library/TuiLib/TuiInput.c:87-134 | typing the digits of a number and Enter delivers the number |
| HexInput.TypingLowerCase | UefiNexusPkg/Library/TuiLib/TuiInput.c:87-134 | typed in small letters they deliver the same number |
| HexInput.Keyboard.ReadHex | UefiNexusPkg/Library/TuiLib/TuiInput.c:87-134 | the buffer loop delivers what the prompt is specified to deliver and consumes exactly its keys |
| StateMachine.AlignToPageBase | UefiNexusPkg/UI/Pages/PageMem/Core/CursorEngine.c:87-97 | rounds an address down to its page; page size 0 leaves it alone |
| StateMachine.CursorState.Move | UefiNexusPkg/UI/Pages/PageMem/Core/CursorEngine.c:16-62 | for every width the cursor afterwards is the specified move of the cursor before |
| StateMachine.CursorState.SetWidth | UefiNexusPkg/UI/Pages/PageMem/Core/CursorEngine.c:65-84 | for every width the cursor afterwards is the specified width change of the cursor before |
| Session.CurrentAddressSplits | UefiNexusPkg/UI/Pages/PageMem/Core/CursorEngine.c:100-109 | on a page boundary with an offset inside the page the current address does not wrap, and page and offset can be read back from it |
| StateMachine.PageState.InitPageState | UefiNexusPkg/UI/Pages/PageMem/Core/StateMachine.c:16-32 | viewing, cursor at the start of the page with width 1, redraw scheduled, caches untouched |
| StateMachine.PageState.TransitionState | UefiNexusPkg/UI/Pages/PageMem/Core/StateMachine.c:35-55 | changes the mode, and schedules a redraw exactly when the mode differs |
| StateMachine.PageState.MarkForRedraw | UefiNexusPkg/UI/Pages/PageMem/Core/StateMachine.c:58-65 | schedules a redraw and changes nothing else |
| Session.MoveCursorAligns | UefiNexusPkg/UI/Pages/PageMem/Core/CursorEngine.c:16-62 | a move from anywhere ends on a whole cell of the same page |
| Session.MoveGoesToNearestCell | UefiNexusPkg/UI/Pages/PageMem/Core/CursorEngine.c:16-62 | a move from a whole cell ends on the cell of the page that is closest to where it points |
| Session.MovesCancel | UefiNexusPkg/UI/Pages/PageMem/Core/CursorEngine.c:16-62 | from a whole cell, a move that stays inside the page is undone by the opposite move |
| Session.SetCursorWidthAligns | UefiNexusPkg/UI/Pages/PageMem/Core/CursorEngine.c:65-84 | a width change selects the whole cell of the new width that contains the selected byte |
| Session.ZeroWidthIsOne | UefiNexusPkg/UI/Pages/PageMem/Core/CursorEngine.c:16-84 | width 0 moves like width 1 and is replaced by it |
| Session.EditInputFits | UefiNexusPkg/UI/Pages/PageMem/PageMemActions.c:99-119 | the value typed into an edit always fits the width, so the width check never rejects it |
| Session.FitsIffDigitsSuffice | UefiNexusPkg/UI/Pages/PageMem/PageMemActions.c:99-119 | a value fits the width if and only if two hexadecimal digits a byte can write it |
| Session.HandleKeyKeepsReady | UefiNexusPkg/UI/Pages/PageMem/PageMemController.c:143-271 | after every handled key: viewing, page address a multiple of 256, offset below 256, width 1, 2, 4 or 8 |
| Session.HandleKeyAlignment | UefiNexusPkg/UI/Pages/PageMem/PageMemController.c:143-271 | arrow and width keys establish a whole cell, and only Goto can break one |
| Session.GotoAlignment | UefiNexusPkg/UI/Pages/PageMem/PageMemActions.c:189-217 | Goto makes the typed address the current one, on a whole cell if and only if it is a multiple of the width |
| Session.GotoPageIsValidIff | UefiNexusPkg/UI/Pages/PageMem/PageMemActions.c:189-217 | a confirmed Goto succeeds on every map, and its page is valid exactly when the page of the typed address is |
| Session.GotoLandsOnInvalidPage | UefiNexusPkg/UI/Pages/PageMem/PageMemLayered.h:92-101 | an input against the header: on every map sixteen digits F and Enter move to the topmost page, which is not valid |
| Session.HandleKeyKeepsCoherent | UefiNexusPkg/UI/Pages/PageMem/PageMemController.c:231-268 | after every key, although lookups happen only when the page changes: the cached found flag and type are those of the first table entry that holds the first byte of the page, the cached access is the verdict on its 256 bytes |
| Session.CoherentIsRefreshed | UefiNexusPkg/UI/Pages/PageMem/PageMemController.c:17-58 | a lookup makes any page coherent in that sense, and a page is coherent only if a lookup would not change it |
| Session.PageDownIsExactIff | UefiNexusPkg/UI/Pages/PageMem/PageMemActions.c:251-279 | on any map, from any page: page-down goes to the next page the core can browse or changes nothing without one, if and only if the page is not shadowed; shadowed it changes nothing |
| Session.PageUpIsExactIff | UefiNexusPkg/UI/Pages/PageMem/PageMemActions.c:220-248 | the same for page-up |
| Session.LateEntryStopsPageDown | UefiNexusPkg/UI/Pages/PageMem/PageMemActions.c:251-279 | a firmware map on which page-down does nothing on page 0 below the valid page 0x10000 |
| Session.PageKeysAreExact | UefiNexusPkg/UI/Pages/PageMem/PageMemActions.c:220-279 | on maps that fit the table, without an entry in the last page and with harmless page counts, aligned or not, page keys go to the nearest valid page of the firmware map on their side or change nothing at all |
| Session.WholeFramesAreNavigable | UefiNexusPkg/UI/Pages/PageMem/PageMemActions.c:220-279 | all maps of whole frames that fit the table are of that kind |
| Session.HandleKeyWrites | UefiNexusPkg/UI/Pages/PageMem/PageMemActions.c:122-186 | if a byte changes, the key was an edit, the byte is in the selected naturally aligned cell of the current page, the write was permitted and the byte is not protected |
| Session.EditIsNeverMisaligned | UefiNexusPkg/UI/Pages/PageMem/PageMemActions.c:150-185 | an edit that passes its own offset check is never rejected for alignment by the memory library |
| Session.EditIsReadBack | UefiNexusPkg/UI/Pages/PageMem/PageMemActions.c:122-186 | a confirmed edit of a readable and writable cell reads back as the typed value and leaves all other bytes |
| Session.ReenteringShownDigits | UefiNexusPkg/UI/Pages/PageMem/PageMemActions.c:122-186 | typing the digits a readable and writable cell shows leaves memory unchanged |
| Session.ChangesAreRedrawn | UefiNexusPkg/UI/Pages/PageMem/PageMemController.c:214-271 | whatever a command key changes is scheduled for redraw |
| Session.RunProtects | UefiNexusPkg/UI/Pages/PageMem/PageMemController.c:274-312 | over any key stream a byte outside every writable descriptor, or reported read-only, keeps its value |
| Session.RunStaysCoherent | UefiNexusPkg/UI/Pages/PageMem/PageMemController.c:274-312 | over any key stream the cursor stays well placed, the current address does not wrap and the caches stay true of the current page |
| Session.SilentRunKeepsMemory | UefiNexusPkg/UI/Pages/PageMem/PageMemController.c:274-312 | with firmware that reports no attributes every run leaves all of memory as it was |
| Session.SessionIsSafe | UefiNexusPkg/UI/Pages/PageMem/PageMemController.c:86-312 | both of these from start-up on, for every map, protocol, memory and key stream |
| Commands.ArrowKeys | UefiNexusPkg/UI/Pages/PageMem/PageMemController.c:162-212 | scan codes 1 to 4 move the cursor by minus 16, plus 16, plus and minus the width in bytes, held in the page and rounded to a cell, from any offset, and change nothing else but the redraw flag |
| Commands.ArrowsFromWholeCell | UefiNexusPkg/UI/Pages/PageMem/PageMemController.c:162-212 | from a whole cell Up and Down go to the same column one row up or down, Right and Left to the adjacent cell, whenever it exists |
| Commands.WidthKeys | UefiNexusPkg/UI/Pages/PageMem/PageMemController.c:252-260 | the digits 1, 2, 4 and 8 set the width they name, on the cell that holds the selected byte |
| Commands.CaseDoesNotMatter | UefiNexusPkg/UI/Pages/PageMem/PageMemController.c:217-264 | a capital letter does exactly what the small one does |
| Commands.OtherKeys | UefiNexusPkg/UI/Pages/PageMem/PageMemController.c:178-264 | Escape and keys without a meaning change nothing, take no further key and answer aborted and not-found |
| Commands.PageKeysNavigate | UefiNexusPkg/UI/Pages/PageMem/PageMemController.c:236-268 | on any map N and P select the first cell of the nearest page the core can browse, unless it is shadowed, keep width and memory, or change nothing at all |
| Commands.PromptByKeys | UefiNexusPkg/Library/TuiLib/TuiInput.c:87-134 | for any typed keys: the first Enter or Escape ends the prompt, with the surviving digits or nothing, and leaves the keys behind it |
| Commands.GotoByKeys | UefiNexusPkg/UI/Pages/PageMem/PageMemActions.c:189-217 | Goto followed by any keys: Enter goes to the typed address and keeps the width, Escape goes nowhere, without either it waits; memory never changes |
| Commands.RefusedEdit | UefiNexusPkg/UI/Pages/PageMem/PageMemActions.c:137-163 | an edit of a misaligned or unbrowsable cell takes no keys, changes neither memory nor cursor and answers invalid-parameter |
| Commands.EditByKeys | UefiNexusPkg/UI/Pages/PageMem/PageMemActions.c:165-186 | an edit followed by any keys: Escape and waiting change no memory; Enter stores the typed number little-endian at the current address if and only if the write is allowed there |
| Commands.OnlyConfirmedEditsWrite | UefiNexusPkg/UI/Pages/PageMem/PageMemActions.c:122-186 | a key that changes memory is an E on an editable cell with Enter before any Escape after it, and the change is the typed number at the current address |
| Commands.UnconfirmedRunKeepsMemory | UefiNexusPkg/UI/Pages/PageMem/PageMemController.c:274-312 | over any key stream in which no E is followed by Enter before Escape, all of memory stays as it was |
| Commands.RangeKeys | UefiNexusPkg/Library/NexusMemLib/MemMap.c:654-750 | the range list takes a key for every sixteen entries with pages and a last one, or ends at the first Escape, and changes nothing |
| Commands.HandleKeyExtends | UefiNexusPkg/UI/Pages/PageMem/PageMemController.c:143-271 | what a handled key does never depends on keys it did not take |
| Commands.RunsCompose | UefiNexusPkg/UI/Pages/PageMem/PageMemController.c:274-312 | a run over two streams is the run over the first followed by the run over the second |
| Commands.EscapeLeaves | UefiNexusPkg/UI/Pages/PageMem/PageMemController.c:300-305 | Escape between commands ends the session at once, whatever is typed after it |
| Commands.OnlyEscapeLeaves | UefiNexusPkg/UI/Pages/PageMem/PageMemController.c:300-305 | nothing else ends it |
| Commands.NoRedrawIsDue | UefiNexusPkg/UI/Pages/PageMem/PageMemController.c:291-295 | whenever a session waits for a command, no redraw is due |
| Start.FirstAddressesAgreeIff | UefiNexusPkg/UI/Pages/PageMem/Core/AddressMap.c:157-178 | the core's and the library's first address are equal if and only if the first browsable entry is no higher than any usable one and memory starts there |
| Start.SessionStartsAtFirstEntry | UefiNexusPkg/UI/Pages/PageMem/PageMemController.c:125-137 | on any map a session starts viewing, one byte wide, at the start of the page that holds the start of the first browsable table entry, or on page 0 |
| Start.InitialPageIsValidIff | UefiNexusPkg/UI/Pages/PageMem/PageMemController.c:121-130 | on maps of whole frames the start page is valid if and only if a usable entry holds the first address |
| Start.EmptyEntryMisleads | UefiNexusPkg/UI/Pages/PageMem/Core/AddressMap.c:157-178 | a map on which the session starts on an invalid page while the library knows a valid one |
| Start.PageKeysReach | UefiNexusPkg/UI/Pages/PageMem/PageMemActions.c:220-279 | from any page boundary, valid or not, N and P keys alone lead to each valid page of such a map and change no memory |
| Start.EveryPageIsReachable | UefiNexusPkg/UI/Pages/PageMem/PageMemController.c:86-312 | from start-up each valid page of such a map is reached by some sequence of N and P keys |
| Picture.OneCellPerPosition | UefiNexusPkg/UI/Pages/PageMem/PageMemView.c:383-399 | cell rectangles are disjoint and tile the data area: each position belongs to exactly one aligned offset |
| Picture.CellShowsBytes | UefiNexusPkg/UI/Pages/PageMem/PageMemView.c:413-459 | the cell at an offset of the page shows the memory bytes at page address plus offset, highest first, exactly when they can be browsed and read, and question marks otherwise |
| Picture.CellTextDecodes | UefiNexusPkg/UI/Pages/PageMem/PageMemView.c:413-459 | decoding the text of a readable cell recovers the little-endian value at page address plus offset |
| Picture.PreviewShowsBytes | UefiNexusPkg/UI/Pages/PageMem/PageMemView.c:214-248 | preview character i of a row is the byte at page address plus row offset plus i when it can be read and printed, and a dot otherwise |
| Picture.WideCellIsBytesHighestFirst | UefiNexusPkg/UI/Pages/PageMem/PageMemView.c:413-548 | a wide cell is its one-byte cells, highest offset first, and the header above each pair names that byte's in-row offset |
| Picture.VerdictDecidesCells | UefiNexusPkg/UI/Pages/PageMem/PageMemView.c:413-459 | with disjoint descriptors and a consistent protocol, a page whose verdict is known shows values in its cells exactly when the verdict says readable |
| Picture.MisalignedCellUnreadable | UefiNexusPkg/UI/Pages/PageMem/PageMemView.c:413-459 | a cell at a misaligned offset shows question marks |
| Picture.SilentCellsAreBlank | UefiNexusPkg/UI/Pages/PageMem/PageMemView.c:413-459 | with firmware that reports no attributes every cell of every page shows question marks |
| Picture.LineLengths | UefiNexusPkg/UI/Pages/PageMem/PageMemView.c:118-188 | the type and info lines fit an 80-column screen for every state |
| Screen.ScreenShowsCell | UefiNexusPkg/UI/Pages/PageMem/PageMemView.c:383-459 | at row 3 + offset / 16, from column 4 on, stand the bytes at page address plus offset, in reverse video exactly when the cell is the selected one |
| Screen.ScreenShowsPreview | UefiNexusPkg/UI/Pages/PageMem/PageMemView.c:214-248 | at column 54 + i of each data row stands the preview of the byte at page address plus 16 per row above plus i |
| Screen.ScreenShowsOffsets | UefiNexusPkg/UI/Pages/PageMem/PageMemView.c:195-272 | each data row starts with the offset of its first byte |
| Screen.ScreenShowsHeader | UefiNexusPkg/UI/Pages/PageMem/PageMemView.c:526-548 | row 2 carries the header of each cell in the columns of the cell |
| Screen.ScreenShowsLines | UefiNexusPkg/UI/Pages/PageMem/PageMemView.c:478-517 | type line and info line stand on rows 1 and 19 |
| Screen.ScreenShowsFrame | UefiNexusPkg/UI/Pages/PageMem/PageMemView.c:504-600 | row 0 shows the title, rows 20 and 21 the help, and nothing stands below them |
| Screen.HighlightIsTheSelection | UefiNexusPkg/UI/Pages/PageMem/PageMemView.c:413-459 | reverse video marks the rectangle of the selected cell and nothing else, and nothing at all when the cursor lies between cells |
| Screen.InfoLineTells | UefiNexusPkg/UI/Pages/PageMem/PageMemView.c:118-146 | the numbers of the info line parse back to the current address, the offset and the width |
| Screen.TypeLineTells | UefiNexusPkg/UI/Pages/PageMem/PageMemView.c:150-188 | the type line of a coherent page names the type of the entry that holds its first byte, and the verdict on the page |
| Screen.SelectedCellIsEdited | UefiNexusPkg/UI/Pages/PageMem/PageMemActions.c:135-185 | the digits of the selected cell parse to the value the memory library reads at the address an edit writes |
| Screen.EditedCellShowsTyped | UefiNexusPkg/UI/Pages/PageMem/PageMemActions.c:122-186 | after a confirmed edit of a readable and writable cell its digits parse to the typed number |
| Screen.DeviceCellsAreBlank | UefiNexusPkg/Library/NexusMemLib/MemMap.c:109-136 | cells in memory-mapped I/O can be browsed and always show question marks |
| View.BuildInfoString | UefiNexusPkg/UI/Pages/PageMem/PageMemView.c:118-146 | builds the specified info line without truncation |
| View.BuildPageTypeString | UefiNexusPkg/UI/Pages/PageMem/PageMemView.c:150-188 | builds the specified type line without truncation |
| View.GetCellPosition | UefiNexusPkg/UI/Pages/PageMem/PageMemView.c:383-399 | the column and row of the cell in the layout |
| View.DrawCell | UefiNexusPkg/UI/Pages/PageMem/PageMemView.c:413-459 | writes the cell's text in the chosen attribute into its rectangle, leaves every other position and ends in the normal attribute |
| View.UpdateInfo | UefiNexusPkg/UI/Pages/PageMem/PageMemView.c:478-494 | replaces the info row by the info line and leaves every other row |
| View.RenderAsciiPreview | UefiNexusPkg/UI/Pages/PageMem/PageMemView.c:214-248 | writes the sixteen preview characters of a row into the preview columns only |
| View.DrawMemoryHeader | UefiNexusPkg/UI/Pages/PageMem/PageMemView.c:526-548 | writes the specified header cells and leaves every other position, whatever was there |
| View.DrawMemoryRows | UefiNexusPkg/UI/Pages/PageMem/PageMemView.c:557-580 | writes the specified cells, prefixes and previews and leaves every other position, whatever was there |
| View.DrawPageFrame | UefiNexusPkg/UI/Pages/PageMem/PageMemView.c:504-517 | clears the screen and writes title and type line, in whatever attribute the console has |
| View.DrawPageHelp | UefiNexusPkg/UI/Pages/PageMem/PageMemView.c:587-600 | replaces the two help rows |
| View.DrawPage | UefiNexusPkg/UI/Pages/PageMem/PageMemView.c:603-618 | from any screen and attribute, every position afterwards shows what the picture of the state says, on the attribute the console had |
| View.ShowsPicture | UefiNexusPkg/UI/Pages/PageMem/PageMemView.c:603-618 | on the normal attribute that is the picture itself at every position |
| Redraw.FastPathIsFullRedraw | UefiNexusPkg/UI/Pages/PageMem/PageMemController.c:187-212 | when the exactness condition holds, repainting old cell, new cell and info row gives the full picture at every position |
| Redraw.InexactFastPathDiffers | UefiNexusPkg/UI/Pages/PageMem/PageMemController.c:187-212 | when it does not hold, the first column of the old cell differs from the full picture |
| Redraw.FastPathAgreesIff | UefiNexusPkg/UI/Pages/PageMem/PageMemController.c:187-212 | partial and full redraw agree on the whole screen if and only if the condition holds |
| Redraw.RepaintStep | UefiNexusPkg/UI/Pages/PageMem/PageMemController.c:187-212 | a partial redraw turns a screen that is right but for a stale cell into one that is: an inexact one leaves its old cell stale, entering the stale cell repairs it |
| Redraw.RepaintBackedStep | UefiNexusPkg/UI/Pages/PageMem/PageMemController.c:187-212 | the same on a screen that was cleared with any attribute |
| Redraw.StaleIsVisible | UefiNexusPkg/UI/Pages/PageMem/PageMemController.c:187-212 | a stale cell differs from the picture in its first column |
| Redraw.WithoutGotoNothingIsStale | UefiNexusPkg/UI/Pages/PageMem/PageMemController.c:143-312 | in a run that starts on a whole cell and gets no Goto key no cell is ever stale |
| StaleCell.RightFromMisaligned | UefiNexusPkg/UI/Pages/PageMem/PageMemController.c:187-212 | an input of the fast path: Right from offset 3 with width 2 leaves the readable cell at 2 stale |
| StaleCell.GotoLeavesStaleCell | UefiNexusPkg/UI/Pages/PageMem/PageMemController.c:143-312 | a whole run: width 2, Goto 3 and Right from start-up leave that cell stale |
| Controller.PageMem.UpdatePageType | UefiNexusPkg/UI/Pages/PageMem/PageMemController.c:17-58 | the caches become fresh lookups, nothing else changes |
| Controller.PageMem.FitsWidth | UefiNexusPkg/UI/Pages/PageMem/PageMemActions.c:99-119 | for supported widths true exactly when the value is below 256^width |
| Controller.PageMem.EditValue | UefiNexusPkg/UI/Pages/PageMem/PageMemActions.c:122-186 | state, memory, status and keys left are those of the specified edit |
| Controller.PageMem.GotoAddress | UefiNexusPkg/UI/Pages/PageMem/PageMemActions.c:189-217 | state, status and keys left are those of the specified Goto |
| Controller.PageMem.PageUp | UefiNexusPkg/UI/Pages/PageMem/PageMemActions.c:220-248 | the state is that of the specified page-up |
| Controller.PageMem.PageDown | UefiNexusPkg/UI/Pages/PageMem/PageMemActions.c:251-279 | the state is that of the specified page-down |
| Controller.PageMem.ShowRanges | UefiNexusPkg/Library/NexusMemLib/MemMap.c:654-750 | changes nothing and takes one key per sixteen listed ranges, until Escape, and a last one |
| Controller.PageMem.Init | UefiNexusPkg/UI/Pages/PageMem/PageMemController.c:86-140 | not-found exactly for an empty map; otherwise the specified initial state over the core's copy of the map |
| Controller.PageMem.MoveAndRepaint | UefiNexusPkg/UI/Pages/PageMem/PageMemController.c:187-212 | the state is that of the move, and a screen right but for a stale cell becomes one right but for the specified stale cell |
| Controller.PageMem.HandleKeyPress | UefiNexusPkg/UI/Pages/PageMem/PageMemController.c:143-271 | state, memory, status and keys left are those of the state machine, and the stale cell of the screen, if any, is the specified one |
| Controller.StaleVerdict | UefiNexusPkg/UI/Pages/PageMem/PageMemController.c:187-212 | a screen right but for a stale cell shows the state if and only if there is none |
| Controller.PageMem.Turn | UefiNexusPkg/UI/Pages/PageMem/PageMemController.c:291-312 | one loop turn is one step of the state machine, drawing first when a redraw is scheduled |
| Controller.PageMem.Run | UefiNexusPkg/UI/Pages/PageMem/PageMemController.c:274-312 | on every map and from every console attribute the loop is the specified run over the whole key stream; protected bytes are unchanged, all of memory is when the firmware reports no attributes, caches are fresh, and the screen shows the state if and only if no cell is stale |

## Left out

- Firmware calls (GetMemoryMap, AllocatePool, LocateProtocol, console protocols): the map, the attribute protocol, memory and keys are inputs.
- Application shell, page menu, page registry, adapter tables and forwarding adapters: function-pointer dispatch became direct calls.
- NULL-pointer branches, missing adapter functions and the conversion of status codes between layers.
- Screen output of prompts, the status line, error reports and the range list: only the keys they take are modelled, and every one of them is followed by a full redraw.
- Changes to memory, map or attributes by firmware or devices during a session.
- The buffer that holds the raw map lies outside the modelled memory, so a write cannot change the map.
- The EDK II conversion StrHexToUint64 is not part of this model: a prompt's digits are parsed to their number, saturating at 2^64 - 1.
- Characters have one type, so converting ASCII to 16-bit characters is copying; consoles have at least 22 rows and 80 columns, and text is clipped at the right edge.
- LayoutEngine.c: single division and remainder helpers that would only add easy members.
- Maps of more than 128 entries in the agreement of lookups: the bridge and the adapter truncate them by design.
- Maps of more than 128 entries in Session.PageKeysAreExact: the page keys see the first 128, over which Session.PageDownIsExactIff and Session.PageUpIsExactIff hold.
- NexusMemLib.MemLib.SetMemoryMap: says nothing about queries when entries lie outside the raw buffer; the source would read past it.
- NexusMemLib.MemLib.SetMemoryAttributeProtocol: the lookup that the source repeats at the next query is done at once, with one fixed platform protocol as its result.
- StateMachine.CursorState.Move: the sum of offset and step is exact, where signed overflow is undefined in C.
