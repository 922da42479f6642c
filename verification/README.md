# Barevisor: a Dafny model of its self-contained algorithms

Barevisor is a bare-metal hypervisor for Intel and AMD processors. Most of it drives privileged
instructions; five parts are algorithms of their own, and this project models those and proves what
they are for:

1. **MTRRs to EPTs (Intel).** `MemoryRanges.dfy` and `Mtrr.dfy` decode the fixed and variable MTRRs
   into typed ranges, merge neighbours in place and answer `find` queries; `Epts.dfy` fills the
   four-level extended page tables from those answers. `VariableMtrrProperties.dfy` and
   `FixedMtrrProperties.dfy` relate the decoding and the lookup to sections 12.11.2.2, 12.11.2.3,
   12.11.3 and 12.11.4.1 of the Intel SDM Vol. 3A; `EptWalk.dfy` gives the hardware walk of section
   29.3.2 and proves that it is the identity on 48 bits. `EptTypes.dfy` says for which registers the
   build panics and for which every leaf has the type that the registers give to its addresses.
2. **INIT and Startup IPI (AMD).** `Sipi.dfy` is the interleaved transition system of the swap, spin,
   swap and compare-exchange on the shared activity states, for any number of processors that may all
   send; it refines the architectural machine. `SipiCode.dfy` has the handlers as methods, each one
   step of the system. `ApicId.dfy` is the processor numbering that routes a Startup IPI.
3. **Host and nested page tables.** `PagingStructures.dfy` has the builder of both variants, the split
   of the APIC's 2MB page and the write-interception toggle; `PageWalk.dfy` the walk and its results.
4. **The allocator.** `Allocator.dfy` has the two-pool bitmap allocator and its whole-run ownership
   invariant.
5. **Assembly.** `Machine.dfy`, `CaptureRestore.dfy` and `RunGuest.dfy` have `capture_registers`,
   `restore_registers` and `run_vmx_guest`, one statement an instruction, over registers and memory.

`BitFields.dfy` shows that the setters of the entry records of 1 and 3 act as those of the 64-bit words; the
bits without a field in the records stay as they were, which is zero. `Paging.dfy`, `Bits.dfy` and
`Option.dfy` are shared helpers. `dafny verify dfyconfig.toml` checks the whole project.

## Conventions

* A Rust panic is a result (`None` or `ok == false`) where an input can cause it, and a proved assertion
  where none can. Asserts of the source that cannot fail are Dafny assertions in the same place.
* Integers are unbounded. Where the source's 64 bits matter, the bound is proved (`Mtrr.DecodeShape`),
  and field widths are kept (`SetPfn`, `SetMemoryType`).
* Physical placement of tables is an arbitrary injective map to page frames of a 52-bit address space.
* Raw MTRRs are inputs. An enabled variable MTRR must have a mask bit, as BSF has no defined result for
  zero, and reserved bits from bit 52 on are clear, as the hardware enforces.

## Where the code differs from what a reader may expect

The model follows the code.

* src/hvcore/src/hypervisor/intel/mtrr.rs:125 walks a fixed MTRR in big-endian byte order, while section
  12.11.2.2 of the SDM gives sub-range j bits 8j+7..8j. The two agree on the first megabyte exactly
  when every register is byte-symmetric (`ByteOrderAgreesExactlyWhenSymmetric`, `ByteOrderDiffers`).
* src/hvcore/src/hypervisor/intel/mtrr.rs:92 says "last matching", but the first match stays unless
  write-through follows write-back. Order is irrelevant exactly where section 12.11.4.1 defines the
  overlap (`OrderIrrelevantExactlyWhereDefined`).
* src/hvcore/src/hypervisor/intel/mtrr.rs:70 tests only the start of a query, so a range that starts
  inside a large query is overlooked. An answer is the type of every address of the query exactly when
  the starts and ends of ranges inside the query resolve as its first address does
  (`AnsweredQueryExactlySound`, over the registers `AnswerTypesWholeQuery`). One legal register pair
  makes a 2MB leaf write-back although half of it is uncachable (`UncachableRangeOverlooked`).
* src/hvcore/src/hypervisor/intel/epts.rs:101 asks about a 512GB window for each 1GB leaf. The build
  panics exactly when some enabled variable MTRR contains a multiple of 1GB from 512GB up to 256TB
  (`BuildPanicsExactly`), so one uncachable 1GB range at 512GB panics it (`UncachableRangePanicsTheBuild`).
* src/hvcore/src/hypervisor/intel/mtrr.rs:17 names the type 7, which an EPT leaf must not have: a leaf
  with it is a misconfiguration (`WalkIsIdentity`). No leaf has it unless a register does
  (`LeafNotReserved`).
* src/hvcore/src/hypervisor/amd/npts.rs:60 advances a frame number by 4096 for each 4KB entry. The split
  therefore keeps the translation of exactly the first page of its region (`SplitKeepsOnlyFirstPage`),
  and the APIC page maps to itself exactly when its base is 2MB-aligned and below 512GB
  (`ApicPageMapsToItself`).
* src/hvcore/src/hypervisor/restore_registers.S:47-52 loads R8, R9 and R10 after it wrote the return
  address below the restored stack pointer, so a block that lies there loses the bytes of them that the
  slot overlaps, up to two registers when the stack pointer is not aligned.

## Model

| member | source | states |
|---|---|---|
| MemoryRanges.MemoryType.FromCode | src/hvcore/src/hypervisor/intel/mtrr.rs:10-18 | a type byte decodes to the type with that encoding, and to nothing exactly when no type has it |
| MemoryRanges.CombinedRanges.Update | src/hvcore/src/hypervisor/intel/mtrr.rs:170-186 | the in-place merge leaves the list that `Combine` describes, which grows exactly when the last range does not touch the new one with the same type |
| MemoryRanges.MergesExactlyNeighbours | src/hvcore/src/hypervisor/intel/mtrr.rs:173-182 | a range is merged iff the last one has its type and ends where it starts or starts where it ends |
| MemoryRanges.TouchingRangesAnswerAsOne | src/hvcore/src/hypervisor/intel/mtrr.rs:170-186 | two touching ranges of one type, in either order, answer every query inside their union with that type |
| MemoryRanges.CombineKeepsCover | src/hvcore/src/hypervisor/intel/mtrr.rs:170-186 | one merge step keeps the ordered covering types of every address |
| MemoryRanges.MergingKeepsCover | src/hvcore/src/hypervisor/intel/mtrr.rs:138-186 | the merged list covers every address with the same types in the same order as the unmerged one |
| MemoryRanges.MergingRefinesLookup | src/hvcore/src/hypervisor/intel/mtrr.rs:67-103 | for queries of any size, an answer of the unmerged list is also the answer of the merged list |
| MemoryRanges.PageNeverBlocked | src/hvcore/src/hypervisor/intel/mtrr.rs:70-76 | no page-sized query straddles a page-aligned range |
| MemoryRanges.UniformExactly | src/hvcore/src/hypervisor/intel/mtrr.rs:67-103 | a region of any size has one type throughout iff its first address has it and the starts and ends of ranges inside the region resolve as that address does |
| MemoryRanges.AnsweredQueryExactlySound | src/hvcore/src/hypervisor/intel/mtrr.rs:67-103 | an answer is the type of each address of the query iff the starts and ends of ranges inside the query resolve as its first address does |
| MemoryRanges.LargeQuerySound | src/hvcore/src/hypervisor/intel/mtrr.rs:67-103 | in particular the answer is right when no range starts inside the query |
| MemoryRanges.FindFromVariable | src/hvcore/src/hypervisor/intel/mtrr.rs:67-103 | the one-pass loop is refused exactly when a range straddles the query before any uncachable one, and otherwise resolves the covering types of its start |
| MemoryRanges.RefusedExactly | src/hvcore/src/hypervisor/intel/mtrr.rs:70-82 | a query is refused iff some range holds its first byte and ends inside it, and no uncachable range earlier in the list holds that byte |
| Mtrr.EnabledIsBit11 | src/hvcore/src/hypervisor/intel/mtrr.rs:142-144 | a register pair counts as enabled iff bit 11 of its mask is set |
| Mtrr.DecodeShape | src/hvcore/src/hypervisor/intel/mtrr.rs:144-156 | decoded ranges are nonempty, page aligned and do not wrap around 64 bits |
| Mtrr.DecodeEnabled | src/hvcore/src/hypervisor/intel/mtrr.rs:144-156 | an enabled pair gives its range, and panics exactly on an unknown type byte |
| Mtrr.ConvertFromRawVariable | src/hvcore/src/hypervisor/intel/mtrr.rs:138-162 | the loop gives the merged ranges of the enabled registers, and panics exactly when one with bit 11 of its mask set has an unknown type byte |
| Mtrr.ConvertFromRawFixed | src/hvcore/src/hypervisor/intel/mtrr.rs:105-136 | the loops give the merge of the 88 sub-ranges, and panic exactly on a wrong count or an unknown byte |
| Mtrr.Mtrr.Find | src/hvcore/src/hypervisor/intel/mtrr.rs:38-55 | fixed ranges rule below 1MB, queries that cross it are refused, variable ranges rule above |
| Mtrr.New | src/hvcore/src/hypervisor/intel/mtrr.rs:28-36 | the decoded MTRRs, or a panic exactly when a byte does not decode |
| Bits.BitScanFindsLowestBit | src/hvcore/src/hypervisor/intel/mtrr.rs:164-168 | the scan finds the lowest set bit, and the value is a multiple of its power of two |
| Bits.AndBits | src/hvcore/src/hypervisor/intel/mtrr.rs:144-156 | the AND of the model is bitwise |
| Bits.BitByDivision | src/hvcore/src/hypervisor/intel/mtrr.rs:142-144 | bit j is the parity of the quotient by 2^j |
| VariableMtrrProperties.MaskedSetCharacterised | src/hvcore/src/hypervisor/intel/mtrr.rs:144-156 | the interval from base with the length of the lowest mask bit is the matched set iff the mask is contiguous and the base aligned |
| VariableMtrrProperties.DecodedRangeIsMatchedSet | src/hvcore/src/hypervisor/intel/mtrr.rs:144-156 | the same of the decoded range of a register pair, for any physical-address width |
| VariableMtrrProperties.ResolveFollowsPrecedence | src/hvcore/src/hypervisor/intel/mtrr.rs:78-102 | the lookup's resolution is the precedence of section 12.11.4.1 wherever that is defined |
| VariableMtrrProperties.PageAnswerFromRegisters | src/hvcore/src/hypervisor/intel/mtrr.rs:67-103 | every page query is answered through the merged list as the unmerged registers resolve |
| VariableMtrrProperties.OrderIrrelevantExactlyWhereDefined | src/hvcore/src/hypervisor/intel/mtrr.rs:67-103 | no permutation of the registers changes a page's answer iff section 12.11.4.1 defines the overlap, and the answer is then the section's |
| VariableMtrrProperties.UndefinedOverlapDependsOnOrder | src/hvcore/src/hypervisor/intel/mtrr.rs:84-95 | for any other overlap two orders of the same registers give different answers |
| VariableMtrrProperties.OrderMatters | src/hvcore/src/hypervisor/intel/mtrr.rs:84-95 | two concrete registers whose order decides between write-combining and write-protected |
| VariableMtrrProperties.CoveringTypesFollowHardware | src/hvcore/src/hypervisor/intel/mtrr.rs:138-162 | for registers with contiguous masks and aligned bases, an address is covered by a type iff some register with mask bit 11 has that type byte and its base and the address agree under its mask |
| VariableMtrrProperties.PageAnswerByManual | src/hvcore/src/hypervisor/intel/mtrr.rs:67-162 | from such registers to the answer for a page: the default type without a match, the common type of the matches, uncachable when one is, write-through for write-through and write-back |
| FixedMtrrProperties.CombineAllOfPartition | src/hvcore/src/hypervisor/intel/mtrr.rs:170-186 | merging a sorted partition gives a partition of the same span with differing neighbours |
| FixedMtrrProperties.TableFollowsLayout | src/hvcore/src/hypervisor/intel/mtrr.rs:106-118 | the register table has the layout of section 12.11.2.2 |
| FixedMtrrProperties.MergedFixedRanges | src/hvcore/src/hypervisor/intel/mtrr.rs:105-136 | the fixed list is a sorted partition of the first megabyte with differing neighbours and keeps each address's type |
| FixedMtrrProperties.BigEndianByDivision | src/hvcore/src/hypervisor/intel/mtrr.rs:125 | sub-range j takes bits 63-8j to 56-8j of its register |
| FixedMtrrProperties.FixedTypeByRegister | src/hvcore/src/hypervisor/intel/mtrr.rs:105-136 | the type of every address below 1MB as a byte of its register, for the 64KB, 16KB and 4KB registers |
| FixedMtrrProperties.FindInFirstMegabyte | src/hvcore/src/hypervisor/intel/mtrr.rs:38-65 | a query inside 1MB is refused iff it spans two types and is otherwise answered with the type of all its bytes; a crossing query is refused |
| FixedMtrrProperties.FixedPageAnswered | src/hvcore/src/hypervisor/intel/mtrr.rs:57-65 | every 4KB page below 1MB is answered with its type |
| FixedMtrrProperties.ByteOrderAgreesExactlyWhenSymmetric | src/hvcore/src/hypervisor/intel/mtrr.rs:125 | the code's sub-range types are those of section 12.11.2.2 iff every register is byte-symmetric |
| FixedMtrrProperties.ByteOrderDiffers | src/hvcore/src/hypervisor/intel/mtrr.rs:125 | a concrete register value for which they differ |
| Epts.Epts.BuildIdentity | src/hvcore/src/hypervisor/intel/epts.rs:20-112 | the build panics exactly when a 1GB-pass query is refused; otherwise every entry of all four levels is the intended one |
| Epts.Epts.FillPt | src/hvcore/src/hypervisor/intel/epts.rs:46-67 | the 4KB leaves of the first 2MB, without reaching the panic |
| Epts.Epts.FillPd | src/hvcore/src/hypervisor/intel/epts.rs:44-85 | one page directory: the first entry links the page table, the others are 2MB leaves with fallback to uncachable |
| Epts.Epts.FillPdpt | src/hvcore/src/hypervisor/intel/epts.rs:98-110 | the 1GB leaves of one table, or the panic exactly when one of its queries is refused |
| BitFields.FieldAfterSet | src/hvcore/src/hypervisor/intel/epts.rs:170-181 | a bit field reads back the low bits of what its setter was given |
| BitFields.FieldAfterOtherSet | src/hvcore/src/hypervisor/intel/epts.rs:170-181 | a setter leaves every disjoint field of the word alone |
| BitFields.SetFieldStaysBelow | src/hvcore/src/hypervisor/intel/epts.rs:170-181 | a setter inside the word's bits keeps it a word |
| BitFields.EptSettersOnWord | src/hvcore/src/hypervisor/intel/epts.rs:170-181 | every setter of an EPT entry acts on the word as the record update of the model |
| BitFields.PageSettersOnWord | src/hvcore/src/hypervisor/paging_structures.rs:61-70 | the same for the entries of the host and nested tables |
| BitFields.ZeroWord | src/hvcore/src/hypervisor/support.rs:6-14 | a zeroed word is the zero entry of both formats |
| BitFields.UnusedBitsKept | src/hvcore/src/hypervisor/intel/epts.rs:170-181 | the setters leave the bits without a field alone |
| BitFields.ThreeSets | src/hvcore/src/hypervisor/intel/epts.rs:115-132 | after three setters on disjoint fields each field has its value and any other field is untouched |
| EptWalk.EptpFields | src/hvcore/src/hypervisor/intel/epts.rs:115-132 | the EPT pointer that the three setters build carries write-back, walk length four and the frame of the PML4, and nothing else |
| EptWalk.WalkIsIdentity | src/hvcore/src/hypervisor/intel/epts.rs:20-132 | the walk of every 48-bit address ends at a readable, writable, executable leaf that maps it to itself with the type of the leaf's own query, or at a misconfiguration exactly when that type is the reserved 7 |
| EptTypes.PageQueryAnswered | src/hvcore/src/hypervisor/intel/epts.rs:55-60 | every 4KB query is answered with the type the MTRR registers give to its page |
| EptTypes.FirstPagesAlwaysResolve | src/hvcore/src/hypervisor/intel/epts.rs:55-60 | the panic of the 4KB pass is unreachable for every decodable configuration |
| EptTypes.AnswerTypesWholeQuery | src/hvcore/src/hypervisor/intel/mtrr.rs:67-103 | an answer above 1MB through the merged list is the type the registers give to each address of the query iff the starts and ends of the registers' ranges inside it resolve as its first address does |
| EptTypes.LargeQueryAnswered | src/hvcore/src/hypervisor/intel/epts.rs:70-76 | with 2MB-aligned ranges the uncachable fallback never happens and each 2MB leaf has the type of all its addresses |
| EptTypes.HugePassExactly | src/hvcore/src/hypervisor/intel/epts.rs:98-110 | the 1GB pass goes through iff no merged range contains a multiple of 1GB from 512GB up to 256TB |
| EptTypes.BuildPanicsExactly | src/hvcore/src/hypervisor/intel/epts.rs:98-110 | the same over the registers: the build panics iff the range of some enabled variable MTRR contains such a multiple |
| EptTypes.HugeQueryAnswered | src/hvcore/src/hypervisor/intel/epts.rs:98-110 | otherwise every 1GB leaf has the default type |
| EptTypes.UncachableRangePanicsTheBuild | src/hvcore/src/hypervisor/intel/epts.rs:99-102 | a concrete register pair, uncachable [512GB, 513GB), for which the build panics whatever the fixed MTRRs and the default type |
| EptTypes.LargeLeafType | src/hvcore/src/hypervisor/intel/epts.rs:68-80 | a 2MB leaf is uncachable when a merged range holds its first byte but ends inside it, and otherwise has the type of its first byte |
| EptTypes.HugeLeafType | src/hvcore/src/hypervisor/intel/epts.rs:98-110 | after a build without panic, a 1GB leaf has the type of its first byte |
| EptTypes.LeafExactly | src/hvcore/src/hypervisor/intel/epts.rs:70-110 | a 2MB or 1GB leaf has the type that the registers give to every address it maps iff its query was answered, or its first address is uncachable, and the ranges' starts and ends inside it resolve as its first address does |
| EptTypes.AllLeavesExactly | src/hvcore/src/hypervisor/intel/epts.rs:20-112 | every 48-bit address has the type of its leaf iff all leaves above 2MB pass that test |
| EptTypes.UncachableRangeOverlooked | src/hvcore/src/hypervisor/intel/mtrr.rs:70-76 | a concrete register pair, uncachable [3MB, 4MB), under which the leaf at 2MB is write-back |
| EptTypes.DownwardNeighbourGivesOneLeaf | src/hvcore/src/hypervisor/intel/mtrr.rs:178-180 | two concrete register pairs, the second just below the first, give one write-back 2MB leaf |
| EptTypes.LeafNotReserved | src/hvcore/src/hypervisor/intel/mtrr.rs:10-18 | no leaf has the reserved type 7 unless some register has it |
| EptTypes.AlignedConfigurationIsExact | src/hvcore/src/hypervisor/intel/epts.rs:20-112 | with 2MB-aligned ranges that end by 512GB the build does not panic and every address has the type of its leaf |
| EptTypes.BuildFromMtrrs | src/hvcore/src/hypervisor/intel/epts.rs:20-112 | the pipeline from raw registers to tables whose walk is the identity, and exactly for which registers it panics |
| ApicId.NumbersIsBijection | src/hvcore/src/hypervisor/apic_id.rs:20-29 | the map is a bijection between the APIC IDs and 0..count-1 |
| ApicId.ApicIds.Init | src/hvcore/src/hypervisor/apic_id.rs:20-29 | whatever the order of the callbacks, the k-th one gets number k; an assert fires exactly on a repeated ID or a second run |
| Sipi.StartAt | src/hvcore/src/hypervisor/amd/guest.rs:311-314 | vector VV starts the guest at VV00:0000, with the CS base of real mode for its selector and RIP 0 |
| Sipi.NextKeepsInv | src/hvcore/src/hypervisor/amd/guest.rs:199-315 | every step of any processor keeps the invariant |
| Sipi.ReachableInv | src/hvcore/src/hypervisor/amd/guest.rs:206-315 | over every interleaving: a guest runs only in state Active, the value that ends a spin is the one swapped out and never 0xFF, and neither state assert fails |
| Sipi.GuestIsActive | src/hvcore/src/hypervisor/amd/guest.rs:306-308 | over every interleaving, the shared value of a processor in its guest is 0 |
| Sipi.PanicsExactly | src/hvcore/src/hypervisor/amd/guest.rs:199-447 | over every interleaving, a step panics iff it is INIT on processor 0 or a Startup IPI to an unknown APIC ID or with vector FFH, and only the processor that takes it |
| Sipi.InitLeavesItWaiting | src/hvcore/src/hypervisor/amd/guest.rs:199-231 | over every interleaving, INIT on another processor puts FFH in the shared array, leaves it spinning and resets it to F000:FFF0 at FFFFFFF0H |
| Sipi.StepRefines | src/hvcore/src/hypervisor/amd/guest.rs:206-461 | every step is a step of the architectural machine or none, with INIT at its swap and a Startup IPI at its compare-exchange |
| Sipi.RunRefines | src/hvcore/src/hypervisor/intel/guest.rs:668-671 | every interleaving is a run of the machine that accepts a Startup IPI only in wait-for-SIPI |
| Sipi.WakeVectorIsFirstSipiAfterInit | src/hvcore/src/hypervisor/amd/guest.rs:293-315 | the vector a processor starts at is that of the first Startup IPI addressed to it after its INIT swap, vector 0 included |
| Sipi.AcceptedSipiStartsGuest | src/hvcore/src/hypervisor/amd/guest.rs:293-315 | an accepted vector is never lost: after three steps of its own, whatever others do, the processor is in its guest with CS selector 100H * vector, CS base 1000H * vector and RIP 0 |
| Sipi.SipiReachesOnlyItsTarget | src/hvcore/src/hypervisor/amd/guest.rs:443-461 | with any steps of the others between lookup and compare-exchange, a Startup IPI for an APIC ID changes the state of the processor with that ID iff it then waits, and of no other |
| Sipi.EveryExchangeHasItsIpi | src/hvcore/src/hypervisor/amd/guest.rs:443-461 | over every run from the start, a compare-exchange reaches only the processor with the APIC ID of the sender's last Startup IPI, and only with its vector |
| SipiCode.SharedGuestData.HandleInitSignal | src/hvcore/src/hypervisor/amd/guest.rs:199-237 | the swap on INIT, its asserts and the CS:RIP reset are one step of the system |
| SipiCode.SharedGuestData.PollActivityState | src/hvcore/src/hypervisor/amd/guest.rs:297-299 | one load of the spin loop is one step of the system |
| SipiCode.SharedGuestData.TakeVector | src/hvcore/src/hypervisor/amd/guest.rs:302-303 | the swap on wake-up is one step of the system |
| SipiCode.SharedGuestData.HandleSipi | src/hvcore/src/hypervisor/amd/guest.rs:306-315 | the check and the start at the vector are one step of the system, with the selector, base and RIP of the source |
| SipiCode.SharedGuestData.DecodeSipi | src/hvcore/src/hypervisor/amd/guest.rs:443-447 | the lookup of the target in the registered APIC IDs and the vector check are one step of the system |
| SipiCode.SharedGuestData.DeliverSipi | src/hvcore/src/hypervisor/amd/guest.rs:455-461 | the compare-exchange is one step of the system |
| SipiCode.SharedGuestData.Interleave | src/hvcore/src/hypervisor/amd/guest.rs:193-197 | the handlers under any schedule keep the invariant and end where the system ends |
| SipiCode.Boot | src/hvcore/src/hypervisor/mod.rs:35 | registration of distinct APIC IDs gives the initial state with the numbering that routes a Startup IPI; its assert fires exactly on a repeated ID |
| PagingStructures.PagingStructuresRaw.BuildIdentity | src/hvcore/src/hypervisor/paging_structures.rs:72-116 | the entries of both variants after the build |
| PagingStructures.PagingStructuresRaw.Split2Mb | src/hvcore/src/hypervisor/amd/npts.rs:46-66 | the split succeeds exactly when its asserts hold, and then page k has frame number pfn + 4096*k and the permissions of the large entry |
| PagingStructures.PagingStructuresRaw.SplitApicPage | src/hvcore/src/hypervisor/amd/npts.rs:33-43 | on fresh nested tables it succeeds exactly in xAPIC mode with the APIC enabled, and splits the region of the base |
| PagingStructures.PagingStructuresRaw.Toggle | src/hvcore/src/hypervisor/amd/guest.rs:317-331 | after any toggles with a fixed base only the last one shows, on the base's entry |
| PageWalk.HostWalk | src/hvcore/src/hypervisor/paging_structures.rs:72-116 | the host walk is the identity on [4096, 2^39), for the supervisor, absent on the null page and from 2^39 on |
| PageWalk.NestedWalk | src/hvcore/src/hypervisor/paging_structures.rs:72-116 | the nested walk is the identity on [0, 2^39) with the user bit at every level, absent from 2^39 on |
| PageWalk.OutsideSplitUnchanged | src/hvcore/src/hypervisor/amd/npts.rs:33-66 | outside the split region the nested walk stays as built |
| PageWalk.InsideSplit | src/hvcore/src/hypervisor/amd/npts.rs:53-65 | inside it page k maps to the region's start plus 16MB*k with its own write permission |
| PageWalk.SplitKeepsOnlyFirstPage | src/hvcore/src/hypervisor/amd/npts.rs:53-61 | the split keeps the translation of an address iff it is in the region's first page |
| PageWalk.ApicPageMapsToItself | src/hvcore/src/hypervisor/amd/npts.rs:33-66 | after the split and any toggles the APIC page maps to itself iff its base is 2MB-aligned and below 512GB; its write permission is the entry's |
| PageWalk.BuildNested | src/hvcore/src/hypervisor/amd/guest.rs:830-843 | build, split and any toggles: the walk of every address, inside and outside the region |
| Allocator.RoundUpByIsLeastCover | src/hvcore/src/hypervisor/allocator.rs:98-105 | the block count is the least one that holds the bytes |
| Allocator.FindEmptyBlocks | src/hvcore/src/hypervisor/allocator.rs:107-128 | the one-pass scan is the exhaustive first-fit search: the leftmost free window, or none when there is none |
| Allocator.OwnerUnique | src/hvcore/src/hypervisor/allocator.rs:58-96 | a set bit has one owner |
| Allocator.PoolAllocKeepsInv | src/hvcore/src/hypervisor/allocator.rs:58-79 | an allocation keeps bits and live allocations in step and does not reuse a live block |
| Allocator.PoolDeallocKeepsInv | src/hvcore/src/hypervisor/allocator.rs:81-96 | a deallocation keeps them in step |
| Allocator.AllocThenDeallocRestores | src/hvcore/src/hypervisor/allocator.rs:58-96 | freeing what was just allocated restores the pool exactly |
| Allocator.DeallocMakesRoom | src/hvcore/src/hypervisor/allocator.rs:58-96 | after a deallocation a request of no more blocks succeeds |
| Allocator.NothingLiveNothingSet | src/hvcore/src/hypervisor/allocator.rs:81-96 | without live allocations no bit is set |
| Allocator.RunKeepsHeapInv | src/hvcore/src/hypervisor/allocator.rs:35-96 | over every legal run on both pools, a bit is set iff its block has an owner |
| Allocator.AllocatedIsLive | src/hvcore/src/hypervisor/allocator.rs:35-79 | alloc fails iff its pool has no free run of the needed blocks, and otherwise makes an allocation live that was not |
| Allocator.AllocationOnlyAdds | src/hvcore/src/hypervisor/allocator.rs:35-79 | an allocation makes exactly its own block live, at a multiple of 4096 or, below a page, of 128 bytes behind the large blocks |
| Allocator.DeallocationOnlyRemoves | src/hvcore/src/hypervisor/allocator.rs:46-96 | a deallocation takes exactly the freed allocation away |
| Allocator.EmptyHeapServes | src/hvcore/src/hypervisor/allocator.rs:35-79 | an empty heap has 0x900 large and 0x2000 small blocks, serves every request below a page, and a larger one iff it has at most 0x900000 bytes |
| Allocator.LiveInHeap | src/hvcore/src/hypervisor/allocator.rs:161-166 | live allocations lie inside the 0xA00000-byte heap, aligned to their block size |
| Allocator.LiveByAddress | src/hvcore/src/hypervisor/allocator.rs:35-55 | a live allocation of 4096 bytes or more is page aligned in the first 0x900000 bytes, a smaller one 128-byte aligned behind them |
| Allocator.LiveDisjoint | src/hvcore/src/hypervisor/allocator.rs:35-96 | different live allocations occupy disjoint byte ranges |
| Allocator.Pool.AllocInternal | src/hvcore/src/hypervisor/allocator.rs:58-79 | the marking loop gives the specified pool and the first-fit address; its assert never fires |
| Allocator.Pool.DeallocInternal | src/hvcore/src/hypervisor/allocator.rs:81-96 | the clearing loop gives the specified pool; its assert never fires |
| Allocator.Metadata.Allocate | src/hvcore/src/hypervisor/allocator.rs:35-44 | requests of 4096 bytes or more come page aligned from the large blocks, smaller ones from the small blocks; the other pool is untouched, and null is returned iff nothing fits |
| Allocator.Metadata.Deallocate | src/hvcore/src/hypervisor/allocator.rs:46-55 | the pool is chosen by size and loses exactly that allocation, which is then not live |
| CaptureRestore.Capture | src/hvcore/src/hypervisor/capture_registers.S:8-46 | the block holds the registers, flags, stack pointer and return address at the call; only RAX is lost and nothing else is written but one stack word |
| CaptureRestore.Restore | src/hvcore/src/hypervisor/restore_registers.S:6-53 | every register, the flags, stack pointer and RIP come from the block, with the exact effect of the return-address slot, at any alignment, on R8 to R10 |
| CaptureRestore.CaptureThenRestore | src/hvcore/src/hypervisor/registers.rs:35-45 | capture, anything that leaves the block intact, then restore is the identity and resumes at the return address |
| RunGuest.SaveHost | src/hvcore/src/hypervisor/intel/run_guest.S:36-63 | the host frame holds every register but RAX and XMM0-5, with the block's address on top |
| RunGuest.StoreGuest | src/hvcore/src/hypervisor/intel/run_guest.S:121-146 | on VM exit the block receives the guest's registers, R15 included |
| RunGuest.RestoreHost | src/hvcore/src/hypervisor/intel/run_guest.S:148-179 | the host's registers come back, RAX holds the flags, and control returns to the caller |
| RunGuest.AfterFailedResume | src/hvcore/src/hypervisor/intel/run_guest.S:89-114 | VMLAUNCH is tried exactly on error 5, with the guest's R14 and R15 reloaded; otherwise the failing flags survive |
| RunGuest.RunVmxGuest | src/hvcore/src/hypervisor/intel/run_guest.S:32-179 | every entry is made with the block's registers, a second one iff VMRESUME fails with error 5; on exit the block has the guest's; on every path the host's are restored and RAX has the flags; the VMCS stays usable for the next call |
| RunGuest.FrameAligned | src/hvcore/src/hypervisor/intel/run_guest.S:52-58 | the frame's MOVAPS operands are aligned iff the call was made with a stack pointer of 8 modulo 16, which the saves and loads of the frame rely on |
| Machine.BlockIsStruct | src/hvcore/src/hypervisor/registers.rs:3-30 | the offsets of the assembly are those of the C layout: the fields in order of declaration without gaps |
| Machine.BlockAligned | src/hvcore/src/hypervisor/registers.rs:48-53 | the MOVAPS operands and words of a 16-byte aligned block are aligned |
| Machine.OverwrittenBytes | src/hvcore/src/hypervisor/restore_registers.S:45-48 | a word that a store overlaps has the stored bytes where the store reached it and its own elsewhere |
| Machine.StoredWord | src/hvcore/src/hypervisor/restore_registers.S:45-48 | a store at any address changes exactly the aligned words that it overlaps |
| Machine.LoadAfterStore | src/hvcore/src/hypervisor/restore_registers.S:45-53 | what was stored at any address is what RET loads from there |

## Left out

- The layout of `Registers` beyond the assembly's offsets, and the MMX, x87 and XMM6-15 state, which the assembly does not touch.
- CaptureRestore.Capture: the flags that its ADD leaves on return are not modelled; the captured flags are those before it.
- CaptureRestore.Restore: POPFQ takes every flag bit from the block; which bits the processor lets through depends on privilege.
- RunGuest.RunVmxGuest: a launched VMCS must carry the host stack pointer of a call at the same stack pointer, and the guest must leave that call's host frame alone.
- The stack pointer is taken not to wrap around.
- RunGuest.RunVmxGuest: the faults of MOVAPS are not modelled; a 16-byte aligned block and stack are required, as the types and the calling convention demand.
- EptTypes.BuildPanicsExactly: ranges must end before the last 512GB window ends, at 0x1007fc0000000; a longer range straddles no window itself, but an uncachable one could hide a later range that does.
- Mtrr.ConvertFromRawVariable: an enabled register pair with an empty mask is excluded, since BSF then has no defined result.
- RawMtrrs::new: reading the registers and its two enable asserts; the raw registers are inputs.
- Allocator.Metadata.Allocate: zero-size requests are excluded, as the GlobalAlloc contract forbids them; alignments above the block size are not asked for.
- Sipi.ReachableInv: INIT and Startup IPI delivery by the hardware before the handlers run; INIT takes effect at the handler's swap.
- The guest state that INIT resets other than CS and RIP, and debug registers.
- The decoding of APIC-write instructions and the forwarding of other APIC writes.
- The rule that interception stops at the last processor; toggles come in any sequence.
- TLB staleness and weak memory: the protocol uses one location a processor.
- `run_svm_guest`, VMCB and VMCS field initialisation, segment decoding, IDT and GDT packing, CR and VMX control adjustment, CPUID, MSR and XSETBV emulation: one-step code with no property across functions.
- Logging, drivers, UEFI and Windows glue, build tools.
