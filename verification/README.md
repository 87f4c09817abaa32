# axaddrspace: a verified model

`axaddrspace` manages the memory of a guest virtual machine: an `AddrSpace` holds a set of memory areas and a
nested page table, its backends map areas linearly or with frames from an allocator (at once or on the first
fault), and `GuestMemoryAccessor` copies bytes to and from guest memory through an address translation. This
project models these three parts and proves what they keep over every run.

`dafny verify dfyconfig.toml` checks the whole project.

## Reading order

- `Flags`, `Words`: mapping flags, the two architectures, 64-bit words with wrap-around and bit fields.
- `Bits`: "and", "or" and complement of words, and what masks make of bit fields. `Entries`: what both page-table
  entry formats do with their address field. `Ept`, `Stage2`: the attributes of the x86_64 and AArch64 entries.
  `Vectors`: the code on 64-bit vectors computes these words. `Pte`: the abstract leaf behind a word.
- `Areas`, `Spaces`: the address space as a state machine. `Spaces.Step` relates a state, one call with its
  outcome, and the next state; `Spaces.Inv` is the invariant.
- `SpaceInv`: every step keeps the invariant. `Calls`: what each call replies and adds, in plain bytes and pages.
  `History`: a page-wise reference that knows only the calls and their outcomes, and the proof that the address
  space refines it. `Frames`: the ledger of data frames. `Runs`: the theorems over whole runs. `Backing`: which
  addresses translate, told from areas and faults. `Permissions`: flags stay with their pages. `Reuse`: mapping a
  freed range again. `LazyEager`: lazy against populated mapping. `Witnesses`: concrete runs in which an
  expectation fails.
- `Machine`, `Backends`, `Withdrawal`, `AddrSpace`: the program itself, as classes and loops that change page
  table, allocator and area set in place; every call is proved to be a step of the machine. Giving back a
  frame requires it to be outstanding, so that verifying the loops excludes double frees.
- `Tiling`: the slices of `translated_byte_buffer`. `Accessor`, `Isolation`: guest memory access, against a
  byte-at-a-time reference. `Bridge`: the accessor over the page table of an address space. `Guests`: two address
  spaces over one allocator, as a joint run of interleaved calls. `Host`: two objects that share an allocator make
  such a run.

## Assumptions

- The page table and the area set are library types whose source is not part of this model. The table is a flat
  map from 4K page number to word: mapping refuses a non-zero word and may run out of memory for a new slot
  without changing anything; remapping rewrites an existing slot with the two setters of the entry; unmapping
  clears a present slot and may or may not clear one that is not present. The area set rejects empty and
  overlapping areas, keeps an area only if its backend succeeded, and on unmapping removes, shrinks or splits
  areas, cloning the backend. `MemorySet::unmap` and `MemorySet::clear` are one loop here (`Withdraw`), and a
  panic inside the library when an area cannot be unmapped is not told apart from its bad-state reply.
- The allocator returns any page-aligned frame that is not outstanding and fits an entry, or nothing; an arbitrary
  choice (`*`) stands for it, so the proofs hold for every allocator of this kind. Refusals are counted, and a
  call may blame a failure on memory only if the count has risen during it.
- Address arithmetic wraps as in release builds (`Words.OffsetWraps` says when a build with overflow checks would
  panic instead); callers keep `start + size` below 2^64, since the range type of the program panics otherwise.
- Words are natural numbers below 2^64 with recursively defined bitwise operators. `Vectors` proves that reading a
  64-bit vector as a number turns `&`, `|` and `!` into these operators, and that the code which makes and changes
  entries computes the words of the model.
- Both spaces of a joint run get their frames from the same allocator, whose functions are global; it hands out no
  frame that is outstanding in either. A linear mapping gives a guest whatever host memory its caller names, so
  isolation asks for a plan that sets no host frame aside for both guests and that the allocator avoids.

## What does not hold

- A mapping call that fails part-way leaves the pages it wrote in the table, outside every area. Such orphans
  keep translating to the same frame for the rest of the run (`Runs.OrphansAreForever`), and their frames are
  lost. So unmapping a range leaves exactly its orphans translatable (`Backing.UnmapLeavesOrphans`), and the two
  translation calls disagree exactly on present orphans.
- Mapping a linear area with flags that give no access succeeds, but its pages are not present: unmapping it
  reports a bad state and `clear` panics. Teardown completes exactly when no linear area is of this kind.
- A repeated fault on a page that already has a frame is handled by a new frame, and the old one is lost
  (`Witnesses.RepeatedFaultStrandsFrame`; `Frames.StrandedExactly` says of every call what it loses).
- `translated_byte_buffer` is documented to return `None` for memory that is not mapped. Once its checks pass it
  panics instead, exactly when some byte of the range does not translate: on a lazy page that was never touched,
  or past the end of an area when the length asked for is not larger than the area.
- An x86_64 entry made with the empty flag set reads back as device memory. On AArch64 no flag set reads back
  as written: WRITE comes back inverted, EXECUTE is always reported, and uncached device memory panics.
- On x86_64 a page mapped to frame zero as device memory without access is recorded as the zero word
  (`Pte.VacantIsZero`). While its area stands the overlap check protects it. But if a call that failed part-way left
  it behind, its slot passes for unused and the next call maps over it (`Witnesses.VacantOrphanIsOverwritten`).

## Model

| member | source | states |
|---|---|---|
| `Words.OffsetCancels` | src/address_space/mod.rs:84-85 | the wrapping offset subtracted again gives the physical address, whichever of the two addresses is larger |
| `Words.OffsetWraps` | src/address_space/mod.rs:84-84 | the offset wraps exactly when the physical address is above the guest address, and then the subtraction for an address of the area exactly when its image is a machine word; otherwise nothing wraps |
| `Bits.OrIsSum` | src/npt/arch/x86_64.rs:115-115 | an "or" of words without a common bit is their sum |
| `Bits.MaskReadsField` | src/npt/arch/x86_64.rs:106-106 | masking with the ones of a bit field, at any position and of any width, keeps that field and drops the rest |
| `Bits.ReplaceMasked` | src/npt/arch/x86_64.rs:128-128 | masking with the complement and "or"-ing new masked bits replaces exactly the masked bits |
| `Vectors.ValueOfAnd` | src/npt/arch/x86_64.rs:106-128 | the operator `&` of 64-bit vectors is the "and" of the model |
| `Vectors.ValueOfOr` | src/npt/arch/x86_64.rs:106-128 | the operator `|` of 64-bit vectors is the "or" of the model |
| `Vectors.ValueOfNot` | src/npt/arch/x86_64.rs:128-128 | the operator `!` of 64-bit vectors is the complement of the model |
| `Vectors.ValueIsInjective` | src/npt/arch/x86_64.rs:106-128 | different vectors stand for different words, so equalities of words are equalities of vectors |
| `Vectors.EptAddress` | src/npt/arch/x86_64.rs:121-129 | the mask expressions that read and replace the address of an entry, on 64-bit vectors, are `Paddr` and `SetPaddr` |
| `Vectors.EptEncodeFlags` | src/npt/arch/x86_64.rs:47-78 | the flag bits accumulated on 64-bit vectors with `|=` and `set_bits` stay clear of the address and the huge bit, are present exactly when some access is granted, and read back as what an entry can record of the set, or as device memory for the empty set |
| `Vectors.EptNewPage` | src/npt/arch/x86_64.rs:110-116 | making an entry on 64-bit vectors gives the word of the model, and that word in numbers, for every address and flag set |
| `Vectors.EptSetFlags` | src/npt/arch/x86_64.rs:131-137 | replacing the flags on 64-bit vectors gives the word of the model, and that word in numbers, for every old entry |
| `Vectors.Stage2Address` | src/npt/arch/aarch64.rs:172-180 | the mask expressions that read and replace the address of a descriptor are `Paddr` and `SetPaddr` |
| `Vectors.Stage2EncodeFlags` | src/npt/arch/aarch64.rs:72-137 | the attributes accumulated on 64-bit vectors stay clear of the address, the access flag and the block bit, are valid exactly for READ, and read back as the memory type chosen unless that is the non-cached one |
| `Vectors.Stage2NewPage` | src/npt/arch/aarch64.rs:161-167 | making a descriptor on 64-bit vectors gives the word of the model, and that word in numbers, for every address and flag set |
| `Vectors.Stage2SetFlags` | src/npt/arch/aarch64.rs:181-187 | replacing the attributes on 64-bit vectors gives the word of the model, and that word in numbers, for every old descriptor |
| `Vectors.SetAddressThenFlags` | src/npt/arch/x86_64.rs:127-137 | on vectors, address then flags give a fresh entry, for any mask and attribute bits outside it |
| `Vectors.SetFlagsThenAddress` | src/npt/arch/x86_64.rs:127-137 | on vectors, flags then address give a fresh entry |
| `Vectors.SettersKeepParts` | src/npt/arch/x86_64.rs:127-137 | on vectors, each setter keeps the bits of the other |
| `Vectors.FreshEntryParts` | src/npt/arch/x86_64.rs:110-123 | on vectors, a fresh entry gives back the masked address and the attribute bits it was made of |
| `Entries.MaskReadsFrame` | src/npt/arch/x86_64.rs:106-106 | the address masks of both formats keep exactly bits 12..52 and 12..48 |
| `Entries.FrameAddrExact` | src/npt/arch/x86_64.rs:106-123 | an address survives masking exactly when it is page-aligned and fits the physical width of the format |
| `Entries.SettersMakeEntry` | src/npt/arch/x86_64.rs:127-137 | in both formats, over any old word and for any attribute bits, the two setters in either order give exactly a fresh entry |
| `Entries.SettersKeepFields` | src/npt/arch/aarch64.rs:178-187 | in both formats each setter alone leaves the field of the other as it was |
| `Entries.AddressInNumbers` | src/npt/arch/x86_64.rs:106-129 | in numbers, which bits of a word the address is read from and which a new address replaces, in both formats |
| `Ept.SettersKeepOtherField` | src/npt/arch/x86_64.rs:127-137 | a new address leaves flags, presence and size as they read before, and new flags leave the address |
| `Ept.PageInNumbers` | src/npt/arch/x86_64.rs:10-78 | the whole word in numbers: access in bits 0..3, memory type 6 or 0 in bits 3..6, size in bit 7, address in bits 12..52 |
| `Ept.TestsInNumbers` | src/npt/arch/x86_64.rs:81-146 | which bits of any word the flags, presence and size are read from |
| `Ept.NewPageRoundTrip` | src/npt/arch/x86_64.rs:110-146 | address, huge bit and presence read back; flags read back exactly for a non-empty set |
| `Ept.EmptyFlagsReadBackAsDevice` | src/npt/arch/x86_64.rs:58-97 | the empty flag set reads back as device memory |
| `Ept.PlaceholderIsUnused` | src/address_space/backend/alloc.rs:43-51 | the lazy placeholder is the zero word, unused and not present |
| `Stage2.SettersKeepOtherField` | src/npt/arch/aarch64.rs:178-187 | a new address leaves flags, presence and size as they read before, and new flags leave the address |
| `Stage2.PageInNumbers` | src/npt/arch/aarch64.rs:10-137 | the whole word in numbers: valid and read, write, memory type, shareable, access flag, page bit and address |
| `Stage2.TestsInNumbers` | src/npt/arch/aarch64.rs:88-196 | which bits of any word the flags, presence and size are read from, and on which words the decoder panics |
| `Stage2.NewPageRoundTrip` | src/npt/arch/aarch64.rs:161-196 | address, block bit and presence read back |
| `Stage2.FlagsReadBack` | src/npt/arch/aarch64.rs:88-137 | what reading the flags back gives for every flag set, including when it panics |
| `Stage2.PlaceholderIsNotUnused` | src/address_space/backend/alloc.rs:43-51 | on AArch64 the lazy placeholder is a non-zero word, still not present |
| `Pte.EncodedLeaf` | src/address_space/backend/alloc.rs:68-70 | no present leaf is a huge page, so the huge branch is dead; presence and address answer for the leaf |
| `Pte.VacantIsZero` | src/npt/arch/x86_64.rs:138-140 | which leaves are recorded as the zero word, and so pass for unused |
| `Pte.RewrittenLeaf` | src/address_space/backend/alloc.rs:92-94 | a slot rewritten in place by a fault holds the same word as a freshly mapped one |
| `Areas.PieceHasParent` | src/address_space/backend/mod.rs:43-53 | every piece left by an unmap lies in one old area, outside the range, with its flags and backend |
| `Areas.TrimDisjoint` | src/address_space/mod.rs:130-132 | pieces left by an unmap never share a page |
| `Areas.TrimCovers` | src/address_space/mod.rs:130-132 | a page is covered afterwards exactly when it was covered and is outside the range |
| `SpaceInv.MapKeepsInv` | src/address_space/mod.rs:84-118 | adding an area, completely or part-way, keeps areas disjoint, leaves right and frames exclusive |
| `SpaceInv.UnmapKeepsInv` | src/address_space/mod.rs:122-134 | unmapping any overlap with any number of areas keeps the invariant |
| `SpaceInv.FaultKeepsInv` | src/address_space/mod.rs:147-161 | serving or refusing a fault keeps the invariant |
| `SpaceInv.StepKeepsInv` | src/address_space/mod.rs:70-161 | every call keeps the invariant, whatever its outcome, except an unmap that reports a bad state or a `clear` that panics |
| `Calls.NewSpace` | src/address_space/mod.rs:57-63 | a new space spans the range asked for and holds nothing |
| `Calls.MapReply` | src/address_space/mod.rs:77-118 | each reply of the two mapping calls has its exact cause in bytes: a bad or empty range or unaligned target, a byte some area already has, a page loop that stopped early; refused calls change nothing |
| `Calls.MapStops` | src/address_space/backend/alloc.rs:31-51 | every slot written held no word or the zero word, and the loop stops early only when memory was denied or at another word |
| `Calls.MapAdds` | src/address_space/mod.rs:84-118 | a successful call adds exactly one area, with the range, flags and backend of the call; a failed one adds none |
| `Calls.UnmapReply` | src/address_space/mod.rs:122-134 | an unmapping step is refused exactly for a range that is not whole pages inside the space; empty ranges change nothing |
| `Calls.JamsExactly` | src/address_space/backend/linear.rs:41-50 | an unmap is stopped exactly by a linear area without access rights that has a byte of the range |
| `Calls.FaultHandled` | src/address_space/mod.rs:147-161 | a fault is handled exactly when it lies in a lazy area that permits every flag of the access and memory was not denied; the page then gets the new frame with the flags of the area |
| `Calls.LimitIsAreaLength` | src/address_space/mod.rs:234-246 | the limit reported with a translation is the length in bytes of the area of the address |
| `Calls.LimitAfterMap` | src/address_space/mod.rs:234-246 | right after a successful mapping the limit in its range is the length asked for |
| `Calls.AcceptedExactly` | src/address_space/mod.rs:187-198 | a buffer request passes the checks exactly when its first byte is in range and in an area at least as long as the request |
| `History.StepMatches` | src/address_space/mod.rs:70-161 | areas and table stay in step with the page-wise reference through every call |
| `History.MatchesPredict` | src/address_space/mod.rs:166-177 | a state that matches the reference translates every address as it predicts |
| `History.LimitAgreesOffOrphans` | src/address_space/mod.rs:166-246 | the two translation calls disagree exactly on present orphans |
| `Frames.Ledger` | src/address_space/backend/alloc.rs:31-96 | allocations equal deallocations plus held pages plus stranded frames |
| `Frames.StrandedExactly` | src/address_space/backend/alloc.rs:31-96 | which frames each call loses: failed populates, replaced frames, mappings without access, nothing else |
| `Frames.ClearReturnsFrames` | src/address_space/mod.rs:137-139 | teardown leaves no area and returns every frame that is not stranded |
| `Frames.TeardownCompletes` | src/address_space/mod.rs:137-139 | teardown can complete exactly when every linear area has flags that give access |
| `Runs.RunInvariant` | src/address_space/mod.rs:57-161 | every state of every run satisfies the invariant and matches the replay of its calls |
| `Runs.RunRefinesReplay` | src/address_space/mod.rs:57-177 | after every run each address translates exactly as the page-wise replay of the calls predicts |
| `Runs.LimitAgrees` | src/address_space/mod.rs:166-246 | in runs without part-way failures both translation calls translate the same addresses |
| `Runs.StrandedAccumulate` | src/address_space/backend/alloc.rs:31-96 | the stranded frames of a run are those lost by its calls, and stay lost |
| `Runs.RunConservesFrames` | src/address_space/backend/alloc.rs:31-96 | over every run, allocations equal deallocations plus held pages plus the frames lost by calls of the run |
| `Runs.RunAccountsFrames` | src/address_space/backend/alloc.rs:31-96 | after every run a frame is outstanding exactly when one single page holds it or an earlier call lost it, never both |
| `Runs.RunTeardown` | src/address_space/mod.rs:259-263 | dropping the space after any run returns everything but the lost frames |
| `Runs.TeardownAlwaysCompletes` | src/address_space/mod.rs:137-139 | if every successful linear mapping of a run gives access, the space can be torn down after it |
| `Runs.LinearTranslationStable` | src/address_space/backend/linear.rs:21-38 | an address mapped linearly translates to `paddr + (v - vaddr)` after any calls that do not remove its page, exactly when flags give access and the image fits the physical width |
| `Runs.UnmapIsExact` | src/address_space/mod.rs:122-134 | a successful unmap removes exactly the covered pages of the range from the translation |
| `Runs.UnmapLeavesNothing` | src/address_space/mod.rs:122-134 | in runs without part-way failures a successful unmap leaves no address of its range translatable |
| `Runs.OrphansAreForever` | src/address_space/backend/alloc.rs:33-40 | a page left by a failed call translates to the same frame after any further calls, and no area ever contains it |
| `Backing.TranslatesExactly` | src/address_space/mod.rs:70-177 | after every run an address translates exactly when it lies in a linear or populated area with access, or in a lazy page touched since it was mapped, or is a present orphan |
| `Backing.UnmapLeavesOrphans` | src/address_space/mod.rs:122-134 | after every run that ends in a successful unmap, exactly the present orphans of its range still translate |
| `Reuse.FreeRangeMaps` | src/address_space/mod.rs:70-119 | in a run whose successful mappings give access, and are not lazy on AArch64, a mapping of a free range that is not denied memory succeeds exactly when no orphan is in the way |
| `Reuse.FreedRangeIsReusable` | src/address_space/mod.rs:70-134 | in such a run without part-way failures a mapping of a free range fails only when it was denied memory |
| `Runs.UnmapFreesExactly` | src/address_space/backend/alloc.rs:56-77 | it frees exactly the frames held in the range, once each, and leaves areas disjoint |
| `Runs.PermissionsMatch` | src/npt/arch/x86_64.rs:58-97 | a present leaf carries the flags of its area, and an x86_64 entry reads them back |
| `Permissions.FlagsAreStable` | src/address_space/mod.rs:70-161 | while no call takes a page away, its area keeps the flags and backend of the mapping call, and its slot the flags: at once for a linear or populated mapping, from the first handled fault on for a lazy one |
| `Permissions.EntryReadsBack` | src/npt/arch/x86_64.rs:58-97 | a present x86_64 entry reads back as the flags of the call that mapped its page |
| `Permissions.UntouchedWord` | src/address_space/backend/alloc.rs:43-51 | the word of an untouched lazy page on either architecture |
| `Runs.FaultIsLocal` | src/address_space/backend/alloc.rs:79-96 | a fault changes no slot but that of its page, and that only for a lazy area that has every flag of the access, whose flags it gets |
| `Runs.PopulateIsPrefix` | src/address_space/backend/alloc.rs:31-41 | a populating call maps exactly the pages before it stopped, to new distinct frames and with its flags |
| `Witnesses.FailedPopulateLeavesOrphan` | src/address_space/backend/alloc.rs:33-40 | a run in which a failed call leaves a page that translates outside every area |
| `Witnesses.InaccessibleLinearAreaJams` | src/address_space/mod.rs:137-139 | a run after which teardown cannot complete |
| `Witnesses.RepeatedFaultStrandsFrame` | src/address_space/backend/alloc.rs:92-94 | a run in which a second fault on a page loses its first frame |
| `Witnesses.UntouchedLazyPagePanics` | src/address_space/mod.rs:179-212 | a run after which asking for a byte of a lazy page passes the checks and panics |
| `Witnesses.RangePastAreaEndPanics` | src/address_space/mod.rs:179-212 | a run after which asking for bytes past the end of an area passes the checks and panics |
| `Witnesses.VacantOrphanIsOverwritten` | src/address_space/backend/alloc.rs:31-41 | a run in which a page left by a failed call is not present, passes for unused and is mapped to another frame by the next call |
| `LazyEager.LazyEqualsEager` | src/address_space/backend/alloc.rs:31-96 | a lazy area whose pages each faulted once, in any order, is an outcome of the populating call with the same frames |
| `Machine.Hal.AllocFrame` | src/hal.rs:10-10 | a frame handed out was not outstanding and now is |
| `Machine.Hal.DeallocFrame` | src/hal.rs:17-17 | only an outstanding frame can be given back |
| `Backends.MapRegion` | src/address_space/backend/linear.rs:13-39 | linear pages, or lazy placeholders, are written over unused slots up to the first refusal and nothing else changes |
| `Backends.Populate` | src/address_space/backend/alloc.rs:31-41 | unused slots get fresh frames up to the first refusal; at most one frame is taken and not mapped |
| `Backends.UnmapAlloc` | src/address_space/backend/alloc.rs:56-77 | exactly the frames of the present pages are given back, once each, and the slots erased |
| `Backends.UnmapLinear` | src/address_space/backend/linear.rs:41-50 | succeeds exactly when all pages are present, and then erases them |
| `AddrSpace.AddrSpace.NewEmpty` | src/address_space/mod.rs:57-63 | the initial state of the machine |
| `AddrSpace.TryNewEmpty` | src/address_space/mod.rs:57-63 | without memory for the root table nothing is created; otherwise a new space of its own in the initial state |
| `AddrSpace.AddrSpace.MapLinear` | src/address_space/mod.rs:70-90 | the call is a step of the machine with the same arguments and reply; it is denied memory exactly when the services refused |
| `AddrSpace.AddrSpace.MapAlloc` | src/address_space/mod.rs:97-119 | the call is a step of the machine with the same arguments and reply |
| `AddrSpace.AddrSpace.RunBackend` | src/address_space/backend/mod.rs:60-71 | dispatching to the backend has the effect of the backend step |
| `AddrSpace.AddrSpace.WithdrawArea` | src/address_space/backend/mod.rs:73-78 | unmapping one area's share fails exactly for a linear area without access |
| `AddrSpace.AddrSpace.ReleaseOwn` | src/address_space/backend/alloc.rs:56-77 | the frames given back are this space's own; what others have outstanding stays as it was |
| `AddrSpace.AddrSpace.Withdraw` | src/address_space/mod.rs:130-138 | visiting the areas one by one amounts to one unmapping step, and fails exactly when a linear area in the way has no access |
| `AddrSpace.AddrSpace.Unmap` | src/address_space/mod.rs:122-134 | each reply is given exactly when its cause holds, told in bytes, and without a bad state the call is a step of the machine |
| `AddrSpace.AddrSpace.Clear` | src/address_space/mod.rs:137-139 | completes exactly when no linear area jams it, and is then the teardown step |
| `AddrSpace.AddrSpace.HandlePageFault` | src/address_space/mod.rs:147-161 | the call is a fault step; the remap never fails |
| `AddrSpace.AddrSpace.BackPage` | src/address_space/backend/alloc.rs:79-96 | a new frame is put behind the page, or memory was refused and nothing changed |
| `AddrSpace.AddrSpace.Translate` | src/address_space/mod.rs:166-177 | computes the translation of the machine's state |
| `AddrSpace.AddrSpace.TranslateAndGetLimit` | src/address_space/mod.rs:234-246 | computes the translation and the area size of the machine's state |
| `AddrSpace.AddrSpace.TranslatedByteBuffer` | src/address_space/mod.rs:182-228 | nothing exactly when the checks fail, a panic exactly when they pass and some byte does not translate, otherwise slices that tile the range; always slices inside a linear or populated area with access |
| `Tiling.TilesLength` | src/address_space/mod.rs:200-224 | slice lengths add up to the length asked for |
| `Tiling.TilesBytes` | src/address_space/mod.rs:211-223 | byte j of the slices lies at the host address of guest byte vaddr + j |
| `Tiling.TilesCount` | src/address_space/mod.rs:211-223 | there is one slice per page touched |
| `Tiling.TilesWithinPages` | src/address_space/mod.rs:212-221 | no slice crosses a page |
| `Tiling.BackedAreaTranslates` | src/address_space/mod.rs:212-212 | every byte of a linear or populated area with access translates |
| `Tiling.BackedRange` | src/address_space/mod.rs:190-212 | inside such an area the checks pass and the unwrap never fails |
| `Accessor.ReadBuffer` | src/memory_accessor.rs:81-128 | succeeds exactly when every byte translates; the buffer holds the byte-wise read up to the first gap and is untouched after it |
| `Accessor.WriteBuffer` | src/memory_accessor.rs:131-174 | succeeds exactly when every byte translates; memory is that of the byte-wise write up to the first gap |
| `Accessor.ReadRegions` | src/memory_accessor.rs:100-127 | the loop over regions computes the same byte-wise read as the fast path |
| `Accessor.ReadObj` | src/memory_accessor.rs:33-47 | succeeds exactly when the object fits one region, and then agrees with the buffer read |
| `Accessor.WriteObj` | src/memory_accessor.rs:63-78 | succeeds exactly when the object fits one region, and then agrees with the buffer write |
| `Accessor.ReachIsFirstGap` | src/memory_accessor.rs:104-125 | a transfer stops at the smallest offset that does not translate |
| `Accessor.StoreElsewhere` | src/memory_accessor.rs:131-174 | no host byte outside the image of the range changes |
| `Accessor.WriteReadRoundTrip` | src/memory_accessor.rs:81-174 | over an injective range, reading returns what was written before the first gap |
| `Accessor.RegionsInvisible` | src/memory_accessor.rs:90-173 | the byte-wise reference that the buffer calls compute depends on the byte map alone |
| `Isolation.RegionsObserved` | src/memory_accessor.rs:33-173 | with the same byte map, limits make no difference to the buffer calls, and to the object calls exactly whether the object fits one region |
| `Isolation.Perform` | src/memory_accessor.rs:33-174 | the four calls answer and change memory as the reference of the accesses says |
| `Isolation.PutThenGet` | src/memory_accessor.rs:81-174 | a put over a range without aliases followed by a get answers the bytes put, up to the first gap |
| `Isolation.GuestsIsolated` | src/memory_accessor.rs:282-366 | with disjoint host images, any interleaving gives each guest the answers it gets alone |
| `Isolation.Serve` | src/memory_accessor.rs:282-366 | carrying out the accesses of two guests in turn gives the interleaved answers, and those each guest gets alone when their images are disjoint |
| `Bridge.PageTranslatorSound` | src/memory_accessor.rs:12-17 | the translator that gives the translation of the table and the rest of the page meets the accessor contract |
| `Guests.StepKeepsPrivate` | src/address_space/mod.rs:70-161 | every call, failing part-way or not, keeps present pages on outstanding frames of their own or on host frames set aside for linear mappings |
| `Guests.JointRunApart` | src/hal.rs:10-17 | in every joint run of two spaces over one allocator, linear mappings and failures included, no frame is outstanding in both |
| `Guests.GuestsOfOneAllocator` | src/memory_accessor.rs:282-366 | after every joint run whose linear mappings go to host frames set aside for one guest only, any interleaving of accesses gives each guest the answers it gets alone |
| `Host.Join` | src/address_space/mod.rs:57-63 | a second space over the same allocator shares no frame with the first |
| `Host.MapLinear` | src/address_space/mod.rs:70-90 | a call on one of two spaces over one allocator is a step of their joint run |
| `Host.MapAlloc` | src/address_space/mod.rs:97-119 | a call on one of two spaces over one allocator is a step of their joint run |
| `Host.HandlePageFault` | src/address_space/mod.rs:147-161 | a call on one of two spaces over one allocator is a step of their joint run |
| `Host.Unmap` | src/address_space/mod.rs:122-134 | a step of the joint run; after a bad-state reply too the other space is as it was and shares no frame |
| `Host.Clear` | src/address_space/mod.rs:137-139 | a step of the joint run; after a panic too the other space is as it was and shares no frame |
| `Bridge.PopulatedAreaRoundTrip` | src/address_space/backend/alloc.rs:31-41 | a buffer inside a populated area, over scattered frames, is written completely and reads back |

## Left out

- Multi-level table walking and the frames of intermediate tables: they live in a library that is not part of this model.
- Entries as mutable objects: the setters are functions from old to new word, so aliasing of an entry is not captured.
- The iteration order of the area set: areas are a set, and the order in which an unmap visits them is left open.
- AddrSpace.AddrSpace.Unmap: of the state after a bad-state reply only what concerns others is promised (their frames stay outstanding), because what the library's area set leaves behind is not part of this model.
- AddrSpace.AddrSpace.Clear: the same holds of the state after the panic.
- SpaceInv.StepKeepsInv: such a reply and such a panic are no steps, so the invariant is not promised after them.
- Reuse.FreeRangeMaps: lazy mappings on AArch64 are excluded; whether the library clears the non-zero placeholder of a page that was never touched is not part of this model.
- `phys_to_virt`: slices carry physical addresses, and the accessor's memory is indexed by host address.
- The `AddrSpace` as a translator for the accessor: its limit is the size of the whole area, not the bytes that remain.
- `Backend::protect`, which no call of `AddrSpace` reaches, and the table-entry constructor `new_table`.
- Volatile access, TLB flushes, logging, Debug output, configuration switches and the RISC-V page table alias.
- `src/device`, `src/frame.rs` and the test allocator: plain data, one owned frame, and test code.
