# MBootCore in Dafny

This project models the algorithmic core of MBootCore, a boot and flashing library, and proves what
that core promises over all inputs, all runs and all interleavings. `dafny verify dfyconfig.toml`
checks everything.

| module | what it covers |
|---|---|
| `Wrappers`, `Sequences`, `Bytes`, `Strings` | optional values, lists without repetition, bytes and fixed-width integers, string order |
| `Digraph`, `DepthFirst` | walks, cycles, orders; what a depth-first search keeps |
| `PackageTypes`, `Lifecycle`, `LifecycleRules`, `PackageManager` | the package manager: rules as transitions, runs, what the operations answer on fields, and the object that performs them |
| `PackageGraph` | the package dependency graph: cycle search and dependents-first order |
| `PluginGraph` | the plugin dependency graph: all cycles and dependencies-first order |
| `ElfParser`, `ElfLayout`, `ElfAcceptance`, `MemoryImage`, `ImageMeaning`, `ImageExamples` | ELF decoding against the System V ABI, which files are accepted, the flattened memory image, what it holds, and files where that goes wrong |
| `CacheCodec`, `CacheRecords`, `CacheLayout`, `CacheDirectory`, `DspCache` | the binary cache: codec, records, their bytes, directory, object |
| `FaultInjection`, `FaultManagement` | the injector state machine and the manager that drives it |
| `VirtualProgrammer`, `ProgrammerFaults`, `ProgrammerThread` | the programmer's thread and its cancellers as interleaved atomic steps; the outcome of every fault; the stages as methods |
| `Crc32` | the table-driven checksum against its bitwise definition |
| `Discovery`, `RepositoryIndex`, `PackageQuery`, `Repository` | the package repository: indexes against the linear search |
| `Quirks`, `QuirkDatabase` | quirk lookup and resolution |
| `Flashing`, `FlashQueue`, `FlashExecutor` | flash plans, the job queue they produce, and the object that fills it |
| `SafeParser`, `Versions` | number parsing, semantic versions, package versions |

Where the source changes fields step by step the model is a class or a loop, proved equal to a function
on values; the theorems are about those functions. Iteration over a hash map is an arbitrary choice of
the next key, so nothing proved depends on its order. Calls under one mutex are single steps; where the
source uses separate atomic accesses (`VirtualProgrammer`) each access is its own step.

## Assumptions

- File system, JSON, clocks and random numbers are inputs: a package directory is an already read
  record, the cache directory a map from names to bytes, a clock value or dice roll a parameter.
- The host is little-endian, `long` and `size_t` have 64 bits, and characters compare by code.
- `endVaddr` is `vaddr + memsz` modulo 2^64 and `isLoadable` means PT_LOAD.
- Integers are mathematical with explicit wrap-around where the source's width can be exceeded.

## Where code and expectation part

- A default-constructed `DSPVersion` is 1.0.0, so a default query has both version bounds at 1.0.0 and
  finds version 1.0.0 only. The index lookups have no bounds. `Repository.ProtocolAgrees` and its
  companions give the exact condition, `Repository.DefaultQueryMisses` the difference.
- An empty name, description or vendor passes for every search text, so such a package is found by every
  search for a text (`PackageQuery.SearchTextTrustedIff`).
- Two boot modes, Normal and Download, have no name and share an index key with Unknown
  (`Repository.UnnamedModesConfused`).
- A graph emptied after a cyclic resolve keeps reporting the cycle, and a cycle path found earlier is
  kept when a later resolve finds none (`PackageGraph.OldCyclePathKept`).
- A valid file may have `filesz > memsz` (a warning only). Such a segment is skipped when its file bytes
  pass the highest address, spills into a gap when they do not, and makes a single-segment image too long
  (`ImageExamples.TopSegmentLost`, `LowerSegmentLost`, `GapNotZero`); `ImageMeaning.AlwaysMemoryIff` and
  `SingleSegmentIff` give the exact conditions.
- The header checks add in 64 bits without regard to overflow: a table whose end wraps around 2^64 is
  accepted and then not read at all, and the file counts as valid (`ElfParser.HeadersLostIff`).
- The reverse lists of the package graph are never filled, only cleaned on removal.
- Installing and uninstalling report a failing rescan after the change is made (`Lifecycle.ErrorsThatChange`).
- `ChipsetId::toString` leaves out an empty variant together with its slash, so the additional
  vendor key of the quirk index never matches a chipset without slashes in vendor and family.
- Chipsets are looked up by a printed name that several chipsets can share: a query with a variant, or with
  a slash in vendor or family, can return a chipset of another vendor (`Quirks.LookupTrustedIff`).
- `update` calls `install`, which refuses an installed id, so it only ever adds another package
  (`Lifecycle.UpdateOnlyAdds`).
- `ElfFile::isValid` asks for a valid class and version besides `validation.valid`.
- Strings and lists in the cache are stored with 32-bit lengths; longer ones come back cut.

## Model

| member | source | states |
|---|---|---|
| `PackageGraph.DependencyGraph.Resolve` | lib/src/dsp/DSPDependencyGraph.cpp:174-182 | On every non-empty graph the order holds each covered package once and before everything it depends on, the unresolved list is exactly the packages on a cycle or reached by following dependencies from one, the cycle flag is exact and equivalent to a non-empty unresolved list, and the cycle path is then a closed walk of real dependencies; on an empty graph the earlier verdict is kept |
| `PackageGraph.DependencyGraph.TopoSort` | lib/src/dsp/DSPDependencyGraph.cpp:68-122 | Establishes that whole verdict from the in-degree queue plus cycle search, whatever order the hash maps yield |
| `PackageGraph.KahnOrder` | lib/src/dsp/DSPDependencyGraph.cpp:72-104 | The queue loop gives a dependents-first order in which every node left out still has a dependent left out, with repeated and missing dependency entries counted as the code counts them |
| `PackageGraph.CountInDegrees` | lib/src/dsp/DSPDependencyGraph.cpp:72-83 | Each in-degree is the number of dependency entries naming the node, repetitions included |
| `PackageGraph.ReleaseDependencies` | lib/src/dsp/DSPDependencyGraph.cpp:95-103 | Discounting the entries of the node just ordered restores the invariant between in-degrees, queue and order |
| `PackageGraph.PopKeepsInv` | lib/src/dsp/DSPDependencyGraph.cpp:91-93 | Taking a node of in-degree zero keeps the order dependents-first and shrinks the rest |
| `PackageGraph.DiscountKeepsInv` | lib/src/dsp/DSPDependencyGraph.cpp:96-103 | One discounted entry keeps the invariant whether or not the entry names a node and whether or not it reaches zero |
| `PackageGraph.LeftOutIsDownstream` | lib/src/dsp/DSPDependencyGraph.cpp:106-114 | For every graph, a node is left out of such an order if and only if it is on or downstream of a cycle, and nothing is left out if and only if there is no cycle |
| `PackageGraph.ShortOrderMeansCycle` | lib/src/dsp/DSPDependencyGraph.cpp:106 | Comparing the two sizes decides acyclicity |
| `PackageGraph.DependencyGraph.Dfs` | lib/src/dsp/DSPDependencyGraph.cpp:23-48 | The recursive search terminates; finding a node on the stack leaves a closed walk in the cycle path; finding none leaves stack and path as they were and the node finished after all its dependencies |
| `PackageGraph.DependencyGraph.DetectCycle` | lib/src/dsp/DSPDependencyGraph.cpp:50-66 | Answers true if and only if the nodes contain a cycle, with a closed walk as witness |
| `PackageGraph.DependencyGraph.AddPackage` | lib/src/dsp/DSPDependencyGraph.cpp:133-153 | Rejects an empty id and a known id without change; otherwise adds the node with an empty reverse list and drops the cached verdict |
| `PackageGraph.DependencyGraph.RemovePackage` | lib/src/dsp/DSPDependencyGraph.cpp:155-172 | Removes a known node, takes its id out of the reverse lists of its dependencies and drops the cached verdict; an unknown id changes nothing; since nothing fills the reverse lists they stay empty in every reachable graph |
| `PackageGraph.DependencyGraph.HasCircularDependency` | lib/src/dsp/DSPDependencyGraph.cpp:193-198 | Exact in every reachable state except a graph emptied after a resolve |
| `PackageGraph.EmptiedGraphStillReportsCycle` | lib/src/dsp/DSPDependencyGraph.cpp:174-198 | That exception is real: add a self-dependent package, resolve, remove it, resolve: the answer is still true |
| `PackageGraph.OldCyclePathKept` | lib/src/dsp/DSPDependencyGraph.cpp:106-121 | A sequence of calls that leaves the cycle path of an earlier graph on a resolved graph without any cycle |
| `DepthFirst.BackEdgeClosesWalk` | lib/src/dsp/DSPDependencyGraph.cpp:32-37 | A dependency found on the stack closes a walk of real edges |
| `Digraph.StuckIsDownstreamOfCycle` | lib/src/dsp/DSPDependencyGraph.cpp:106-114 | In any graph, a set in which every node has a dependent in the set lies downstream of a cycle |
| `Digraph.CompleteOrderHasNoCycle` | sdk/src/PluginDependencyGraph.cpp:54-83 | A complete dependencies-first order (the finishing order of the search) excludes cycles |
| `Lifecycle.ReachableInv` | lib/src/dsp/DSPManager.cpp:134-467 | After every sequence of install, uninstall, update, enable, disable and verify from the empty manager: every required dependency of every installed package is installed within its non-zero bounds, no two packages share a loader id, and the required-dependency graph has no cycle |
| `Lifecycle.StepKeepsInv` | lib/src/dsp/DSPManager.cpp:134-467 | Each operation, successful or refused, keeps that invariant |
| `Lifecycle.InstallKeepsAcyclic` | lib/src/dsp/DSPManager.cpp:157-191 | A package whose required dependencies are already installed cannot close a cycle |
| `Lifecycle.UninstallKeepsInv` | lib/src/dsp/DSPManager.cpp:259-307 | Refusing to remove a package that another one requires is enough to stay closed under required dependencies |
| `Lifecycle.ErrorsThatChange` | lib/src/dsp/DSPManager.cpp:134-467 | An operation reports an error and has changed the packages if and only if only the closing rescan failed (install, uninstall, update) or a critical finding marked a package that has an install path and was not marked before |
| `Lifecycle.UpdateOnlyAdds` | lib/src/dsp/DSPManager.cpp:309-358 | An update leaves every installed package as it was and adds at most one, of another id; updating a package from a source of its own id always fails |
| `Lifecycle.UninstallAllSucceeds` | lib/src/dsp/DSPManager.cpp:259-307 | Uninstalling along any dependents-first order is never refused and removes exactly the listed packages |
| `Lifecycle.Teardown` | lib/src/dsp/DSPManager.cpp:259-307 | For every installation, uninstalling in resolution order never fails, leaves exactly the packages downstream of a dependency cycle, and ends empty if and only if there is no cycle |
| `Lifecycle.ReachableTeardown` | lib/src/dsp/DSPManager.cpp:157-307 | From every reachable installation whose dependencies are all required, the resolution order tears everything down |
| `Lifecycle.OptionalDependencyCycle` | lib/src/dsp/DSPManager.cpp:172-191 | Without that hypothesis it fails: two installs reach a cycle through an optional dependency |
| `PackageTypes.OrderIsNumeric` | lib/include/mbootcore/dsp/DSPTypes.hpp:58-62 | A version is below another if and only if its three fields, read as one number with major the most significant, are below the other's; only 0.0.0 is no bound |
| `LifecycleRules.ReachableBounds` | lib/src/dsp/DSPManager.cpp:134-467 | In every reachable state each required dependency of each package is installed, its version number is at least that of a non-zero minimum and at most that of a non-zero maximum, and no loader id belongs to two packages; said on numbers and fields alone |
| `LifecycleRules.MetIsWithin` | lib/src/dsp/DSPManager.cpp:172-191 | A dependency counts as met if and only if it is optional or installed with its number within the non-zero bounds |
| `LifecycleRules.InstallVerdict` | lib/src/dsp/DSPManager.cpp:134-257 | For every state and source: which of the seven refusals is given is decided by the fields, the first failing check first; a refusal changes nothing; otherwise exactly one package is added, installed at the target |
| `LifecycleRules.UninstallVerdict` | lib/src/dsp/DSPManager.cpp:259-307 | Refused if and only if the id is unknown or another package has a required dependency on it; otherwise exactly that package is gone, also when the rescan then fails |
| `LifecycleRules.UpdateVerdict` | lib/src/dsp/DSPManager.cpp:309-358 | Answers and acts like an install of the source behind a check that the package is there |
| `LifecycleRules.EnableVerdict` | lib/src/dsp/DSPManager.cpp:360-370 | Refused for an unknown, corrupted or incompatible package; otherwise the state of that package and nothing else changes |
| `LifecycleRules.DisableVerdict` | lib/src/dsp/DSPManager.cpp:372-390 | Refused for an unknown or needed package; otherwise the state of that package and nothing else changes |
| `LifecycleRules.VerifyVerdict` | lib/src/dsp/DSPManager.cpp:438-467 | Only a critical finding of an invalid report changes the package, and only its state |
| `PackageManager.Manager.Install` | lib/src/dsp/DSPManager.cpp:134-257 | Walks loaders and dependencies as the code does and performs exactly the install transition, the first failing check deciding the error, a failing rescan reported after the package is registered |
| `PackageManager.Manager.Uninstall` | lib/src/dsp/DSPManager.cpp:259-307 | Performs exactly the uninstall transition, a failing rescan reported after the package is erased |
| `PackageManager.Manager.Update` | lib/src/dsp/DSPManager.cpp:309-358 | Performs exactly the update transition: a call of install behind an existence check |
| `PackageManager.Manager.Enable` | lib/src/dsp/DSPManager.cpp:360-370 | Performs exactly the enable transition |
| `PackageManager.Manager.Disable` | lib/src/dsp/DSPManager.cpp:372-390 | Performs exactly the disable transition |
| `PackageManager.Manager.Verify` | lib/src/dsp/DSPManager.cpp:438-467 | Performs exactly the verify transition: only a critical finding marks the package corrupted |
| `PackageManager.Manager.PerformAll` | lib/src/dsp/DSPManager.cpp:134-467 | Any sequence of calls on the object is the run of transitions the reachability results speak of |
| `PackageManager.Manager.HasLoaderConflict` | lib/src/dsp/DSPManager.cpp:1334-1343 | True if and only if an installed package has the loader id |
| `PackageManager.Manager.IsRequiredByOther` | lib/src/dsp/DSPManager.cpp:270-283 | True if and only if another installed package has a required dependency on the id |
| `PackageManager.Manager.DependenciesSatisfied` | lib/src/dsp/DSPManager.cpp:172-191 | True if and only if every required dependency is installed within its non-zero bounds |
| `PackageManager.Manager.UninstallInResolutionOrder` | lib/src/dsp/DSPDependencyGraph.cpp:68-122 | Building the graph of the installed packages, resolving it and uninstalling in its order always succeeds and leaves exactly what is downstream of a cycle; nothing, if all dependencies are required |
| `PluginGraph.DependencyGraph.Resolve` | sdk/src/PluginDependencyGraph.cpp:85-146 | A cycle is reported if and only if the nodes contain one, every reported cycle is a closed chain of real edges, the missing ids are exactly the named non-nodes, and without a cycle the order is a permutation of all nodes with every in-graph dependency first |
| `PluginGraph.DependencyGraph.FindCycles` | sdk/src/PluginDependencyGraph.cpp:87-98 | The cycle flag is exact and every recorded cycle is real, although the search goes on after the first |
| `PluginGraph.DependencyGraph.Dfs` | sdk/src/PluginDependencyGraph.cpp:54-83 | Restores stack and marks; a node on the stack records a cycle; any other node ends up finished |
| `PluginGraph.DependencyGraph.AddNode` | sdk/src/PluginDependencyGraph.cpp:10-20 | Adds or replaces the node and changes nothing else |
| `PluginGraph.KahnOrder` | sdk/src/PluginDependencyGraph.cpp:112-143 | Always dependencies first without repetitions, and complete on every acyclic graph, even with repeated or missing dependencies |
| `PluginGraph.CountWaiting` | sdk/src/PluginDependencyGraph.cpp:113-121 | Each counter is the number of dependency entries that name a registered node |
| `PluginGraph.DiscountAll` | sdk/src/PluginDependencyGraph.cpp:132-141 | One sweep over all nodes pays back every entry naming the node just ordered |
| `PluginGraph.MissingDependencies` | sdk/src/PluginDependencyGraph.cpp:104-110 | Lists exactly the dependency ids that are not nodes |
| `ElfParser.Parse` | lib/src/elf/ElfParser.cpp:361-451 | For every byte string below 2^63 bytes no read leaves the string (all indexing is checked), it succeeds if and only if magic and header checks pass, and then each present table has exactly the announced number of entries, entry i being the decoding at off + i*entsize, section names resolved; validity is exactly that of the segments |
| `ElfAcceptance.ParseFile` | lib/src/elf/ElfParser.cpp:361-451 | The parser on the bytes of the file: it succeeds if and only if the file starts with a 32-bit or 64-bit header, in either byte order, with version 1, a machine, entry sizes and table ends in bounds; then every entry of both tables is the one the ABI layout of the file's class places there, every name is the text at its index, and validity is decided by the segments' fields |
| `ElfAcceptance.AcceptedIff` | lib/src/elf/ElfParser.cpp:236-291 | Acceptance on bytes: some sound header is laid out at the start of the file |
| `ElfAcceptance.TableInside` | lib/src/elf/ElfParser.cpp:282-290 | A table that lies inside the file as a whole passes its check |
| `ElfAcceptance.GoodSegmentsIff` | lib/src/elf/ElfParser.cpp:293-350 | The segment checks said on offsets, sizes and addresses |
| `ElfAcceptance.MeetIffShared` | lib/src/elf/ElfValidator.cpp:96-111 | Two segments that have memory and do not wrap overlap if and only if they share an address |
| `ElfParser.ReadTable` | lib/src/elf/ElfParser.cpp:386-401 | The whole table is read: the in-loop break never fires, under the wrapped 64-bit bound check the header validation makes |
| `ElfParser.EntryInFile` | lib/src/elf/ElfParser.cpp:282-288 | The wrapped bound check implies that every entry address is exact and inside the file |
| `ElfParser.HeadersLostIff` | lib/src/elf/ElfParser.cpp:282-290 | An accepted file that announces a table loses all of it, silently, if and only if the end of the table wraps around 2^64; losing the program headers leaves it valid |
| `ElfLayout.WrappedTableLost` | lib/src/elf/ElfParser.cpp:282-290 | A file of 64 bytes that is accepted, announces one program header and has none in every parse |
| `ElfLayout.WriteHeader64` | lib/src/elf/ElfParser.cpp:112-157 | Every 64-bit header value is read back from some file |
| `ElfLayout.WriteProgramHeader64` | lib/src/elf/ElfParser.cpp:176-187 | Every 64-bit program header is read back from some 56 bytes |
| `ElfLayout.TwoSegmentFile` | lib/src/elf/ElfParser.cpp:361-451 | For every two program headers and either byte order some 64-bit file is accepted whose every parse holds exactly them and is valid if and only if they are |
| `ElfLayout.WriteHeader32` | lib/src/elf/ElfParser.cpp:112-157 | Every 32-bit header value is read back from some file |
| `ElfLayout.WriteProgramHeader32` | lib/src/elf/ElfParser.cpp:163-174 | Every program header whose fields fit 32 bits is read back from some 32 bytes |
| `ElfLayout.TwoSegmentFile32` | lib/src/elf/ElfParser.cpp:361-451 | The 32-bit twin, in either byte order: for every two program headers whose fields fit 32 bits |
| `ElfParser.ValidateProgramHeaders` | lib/src/elf/ElfParser.cpp:293-350 | Valid if and only if every non-null segment lies in the file and no two PT_LOAD segments overlap |
| `ElfParser.CheckOverlappingSegments` | lib/src/elf/ElfValidator.cpp:96-111 | Clear if and only if no two PT_LOAD segments overlap |
| `ElfParser.ResolveNames` | lib/src/elf/ElfParser.cpp:425-443 | Each section gets the zero-terminated string at its index, cut at the table end, or none |
| `ElfParser.NameAt` | lib/src/elf/ElfParser.cpp:435-441 | The name is the slice up to the first zero byte or the end of the table |
| `ElfLayout.ReadsEhdr64` | lib/src/elf/ElfParser.cpp:112-157 | The reader returns a header if and only if the bytes hold it in the 64-bit ELF header layout of chapter 4 of the System V ABI, in the byte order named by the file |
| `ElfLayout.ReadsEhdr32` | lib/src/elf/ElfParser.cpp:112-157 | The same for the 32-bit ELF header |
| `ElfLayout.ReadsPhdr64` | lib/src/elf/ElfParser.cpp:176-187 | The same for the 64-bit program header of chapter 5 |
| `ElfLayout.ReadsPhdr32` | lib/src/elf/ElfParser.cpp:163-174 | The same for the 32-bit program header |
| `ElfLayout.ReadsShdr64` | lib/src/elf/ElfParser.cpp:204-217 | The same for the 64-bit section header |
| `ElfLayout.ReadsShdr32` | lib/src/elf/ElfParser.cpp:189-202 | The same for the 32-bit section header |
| `Bytes.ReadUintIsFileOrder` | lib/src/elf/ElfParser.cpp:22-47 | Copying and swapping on a little-endian host gives the big- or little-endian value of the bytes |
| `Bytes.ReadIffEncoded` | lib/src/elf/ElfParser.cpp:22-47 | Reading a value and encoding it in the same order are inverse to each other |
| `Bytes.TwoBytes` | lib/src/elf/ElfParser.cpp:22-47 | Byte order 1 reads the low byte first, byte order 2 the high byte |
| `ImageMeaning.ImageIsMemory` | lib/src/elf/MemoryImageBuilder.cpp:27-111 | For every checked file without address wrap whose spilled bytes are hidden (in particular with filesz <= memsz): at each address of the span the image holds the file byte of the one required PT_LOAD segment covering it, zero in its BSS tail and zero in gaps |
| `ImageMeaning.ImageIsMemoryIff` | lib/src/elf/MemoryImageBuilder.cpp:96-108 | Two or more segments of any size: the image is that memory if and only if, at every address, the last fitting segment reaching it and the segment covering it give the same file byte |
| `ImageMeaning.AlwaysMemoryIff` | lib/src/elf/MemoryImageBuilder.cpp:96-108 | Two or more segments: the image is that memory for every file content if and only if, at every address, both take the byte from the same place in the file, a condition on the program headers alone |
| `ImageMeaning.SpillsHiddenIff` | lib/src/elf/MemoryImageBuilder.cpp:96-108 | If all segments have memory: every segment is copied and the image is right for every content if and only if each address past a segment's memory is covered by a required segment of larger address |
| `ImageMeaning.SingleSegmentIff` | lib/src/elf/MemoryImageBuilder.cpp:93-95 | One segment: the image is the memory, and has its length, if and only if filesz <= memsz |
| `ImageMeaning.ImageBytes` | lib/src/elf/MemoryImageBuilder.cpp:96-108 | For every checked file without address wrap, whatever the sizes: the image of two or more segments holds at each address the byte of the last segment in address order that fits and whose data reaches it, else zero |
| `ImageMeaning.SegmentCopiedIff` | lib/src/elf/MemoryImageBuilder.cpp:102-107 | Every segment is copied if and only if vaddr + max(filesz, memsz) is at most the highest address |
| `ImageMeaning.CopiedShows` | lib/src/elf/MemoryImageBuilder.cpp:102-107 | A copied segment shows wherever its data reaches, unless a later one hides it there |
| `ImageMeaning.SkippedLeavesNoTrace` | lib/src/elf/MemoryImageBuilder.cpp:102-107 | A segment that is not copied leaves the image of the others |
| `ImageMeaning.SmallSegmentsSpillNothing` | lib/src/elf/ElfParser.cpp:313-316 | filesz <= memsz is enough for spilled bytes to be hidden |
| `ImageExamples.TopSegmentLost` | lib/src/elf/MemoryImageBuilder.cpp:96-108 | A file of 176 bytes that the parser accepts as valid and whose every image has lost its second segment and is not the memory |
| `ImageExamples.LowerSegmentLost` | lib/src/elf/MemoryImageBuilder.cpp:96-108 | The same for the first segment |
| `ImageExamples.GapNotZero` | lib/src/elf/MemoryImageBuilder.cpp:96-108 | The same with a file byte in a gap |
| `ImageMeaning.ParsedImageIsMemory` | lib/src/elf/ElfParser.cpp:293-451 | The first result for whatever the parser accepted as valid |
| `ImageMeaning.OrderIndependent` | lib/src/elf/MemoryImageBuilder.cpp:69-111 | Two such files with the same bytes and permuted program headers give the same image, addresses and totals |
| `ImageMeaning.MemoryIsUnique` | lib/src/elf/MemoryImageBuilder.cpp:69-111 | The address-by-address description determines span and bytes |
| `ImageMeaning.NoSharedAddress` | lib/src/elf/ElfParser.cpp:332-343 | The overlap check leaves at most one required segment per address |
| `MemoryImage.Build` | lib/src/elf/MemoryImageBuilder.cpp:27-111 | Succeeds if and only if the file is valid and has a required segment; addresses, totals and segments are those of the required segments in some order sorted by address, in 64-bit arithmetic, and the bytes are the single segment or the guarded copies in that order |
| `MemoryImage.Collect` | lib/src/elf/MemoryImageBuilder.cpp:35-63 | The required segments in file order, each padded with zeros to its memory size |
| `MemoryImage.SegmentFields` | lib/src/elf/MemoryImageBuilder.cpp:39-60 | A collected segment has the fields of its header; its data is as long as the larger of memory size and what the file gives, file bytes first, then zeros |
| `MemoryImage.RequiredIff` | lib/src/elf/MemoryImageBuilder.cpp:19-25 | A header is required if and only if it is PT_LOAD and no bit of the flags asked for is missing in it |
| `MemoryImage.SortByVaddr` | lib/src/elf/MemoryImageBuilder.cpp:69-75 | A permutation sorted by address, either way round for equal addresses |
| `MemoryImage.Flatten` | lib/src/elf/MemoryImageBuilder.cpp:96-108 | The copy loop is the overlay of the segments, skipping one that would not fit |
| `MemoryImage.Measure` | lib/src/elf/MemoryImageBuilder.cpp:77-88 | The highest end address and the totals modulo 2^64 |
| `CacheRecords.MetadataRoundTrip` | lib/src/dsp/DSPCache.cpp:149-291 | Loading a stored record gives it back with every string and the chipset list cut at their lengths modulo 2^32 |
| `CacheRecords.MetadataRoundTripIff` | lib/src/dsp/DSPCache.cpp:149-291 | The record comes back unchanged if and only if every string and the list are shorter than 2^32 |
| `CacheRecords.MetadataTruncated` | lib/src/dsp/DSPCache.cpp:203-291 | Every strict prefix of a record fails to load or gives identical manifest fields with a strictly shorter prefix of the chipset list |
| `CacheRecords.OrderRoundTripIff` | lib/src/dsp/DSPCache.cpp:399-451 | A dependency order comes back unchanged if and only if it and its strings are shorter than 2^32 |
| `CacheRecords.OrderTruncated` | lib/src/dsp/DSPCache.cpp:423-451 | Every strict prefix of a dependency-order record is rejected |
| `CacheRecords.LookupRoundTripIff` | lib/src/dsp/DSPCache.cpp:358-389 | A cached lookup comes back unchanged if and only if it is shorter than 2^32 |
| `CacheLayout.MetadataLayout` | lib/src/dsp/DSPCache.cpp:149-193 | The bytes of a record, first to last: magic number and version 1.0.0, the four names, the version, the compatibility fields, state and origin, the places, the chipset count and the chipsets, numbers as four bytes with the lowest first and texts behind their length |
| `CacheLayout.OrderLayout` | lib/src/dsp/DSPCache.cpp:399-421 | The bytes of a dependency order: the count and each text behind its length |
| `CacheLayout.MissesAndMagic` | lib/src/dsp/DSPCache.cpp:203-223 | Only an empty file is a miss; a file that starts with anything but the magic number is corrupt |
| `CacheCodec.DecodeItemsEncoded` | lib/src/dsp/DSPCache.cpp:65-103 | A sequence of fields decodes to itself and leaves the bytes after it |
| `CacheCodec.DecodeItemsTruncated` | lib/src/dsp/DSPCache.cpp:85-103 | A strict prefix of an encoded sequence of fields never decodes |
| `CacheDirectory.NamesDistinct` | lib/src/dsp/DSPCache.cpp:25-41 | File names of the four kinds collide only for the same kind and the same sanitized id |
| `CacheDirectory.Sanitize` | lib/src/dsp/DSPCache.cpp:30-41 | Same length, only safe characters, identity on safe ids |
| `CacheDirectory.SanitizedAt` | lib/src/dsp/DSPCache.cpp:30-41 | A character is kept if and only if it is an ASCII letter, a digit, an underscore, a hyphen or a dot, and else becomes an underscore |
| `CacheDirectory.RunRefines` | lib/src/dsp/DSPCache.cpp:149-502 | Over every sequence of operations the one directory behaves as four independent maps keyed by sanitized id |
| `CacheDirectory.RunFromEmpty` | lib/src/dsp/DSPCache.cpp:142-502 | The same from a fresh cache |
| `CacheDirectory.Untouched` | lib/src/dsp/DSPCache.cpp:149-502 | Operations on other kinds or other sanitized ids never change an entry |
| `CacheDirectory.StoredMetadataSurvives` | lib/src/dsp/DSPCache.cpp:149-291 | Stored metadata loads back after any operations that do not touch its entry |
| `CacheDirectory.StoredOrderSurvives` | lib/src/dsp/DSPCache.cpp:399-451 | The same for a dependency order |
| `CacheDirectory.StoredLoaderAndLookupSurvive` | lib/src/dsp/DSPCache.cpp:315-389 | The same for loader images and lookups |
| `CacheDirectory.MissIff` | lib/src/dsp/DSPCache.cpp:203-451 | Each of the four loads is a miss if and only if there is no file, or, except for loaders, an empty one |
| `CacheDirectory.RemovedIsMissed` | lib/src/dsp/DSPCache.cpp:299-354 | After an invalidation that one entry is absent and every other one is as before |
| `DspCache.SerializeMetadata` | lib/src/dsp/DSPCache.cpp:149-193 | Growing the buffer field by field gives exactly the specified record |
| `DspCache.DeserializeMetadata` | lib/src/dsp/DSPCache.cpp:203-291 | The cursor-based reader equals the decoding function on every byte string, including every malformed one |
| `DspCache.DeserializeOrder` | lib/src/dsp/DSPCache.cpp:423-451 | The same for dependency orders |
| `DspCache.Cache.CacheMetadata` | lib/src/dsp/DSPCache.cpp:149-201 | Replaces exactly one file and keeps the statistics right |
| `DspCache.Cache.LoadMetadata` | lib/src/dsp/DSPCache.cpp:203-291 | Decodes the file of the sanitized id |
| `DspCache.Cache.InvalidateMetadata` | lib/src/dsp/DSPCache.cpp:299-311 | Removes exactly that file and keeps the statistics right |
| `DspCache.Cache.CacheLoader` | lib/src/dsp/DSPCache.cpp:315-326 | Stores the raw bytes |
| `DspCache.Cache.LoadLoader` | lib/src/dsp/DSPCache.cpp:328-337 | Returns the raw bytes; an existing empty file is not an error |
| `DspCache.Cache.InvalidateLoader` | lib/src/dsp/DSPCache.cpp:345-354 | Removes exactly that file |
| `DspCache.Cache.CacheLookup` | lib/src/dsp/DSPCache.cpp:358-372 | Stores the encoded value |
| `DspCache.Cache.LookupCached` | lib/src/dsp/DSPCache.cpp:374-389 | Decodes the stored value |
| `DspCache.Cache.CacheDependencyResolution` | lib/src/dsp/DSPCache.cpp:399-421 | Stores the encoded order |
| `DspCache.Cache.LoadDependencyResolution` | lib/src/dsp/DSPCache.cpp:423-451 | Decodes the stored order |
| `DspCache.Cache.Clear` | lib/src/dsp/DSPCache.cpp:455-471 | Empties an existing directory and leaves zero statistics that are not stale; without a directory nothing changes |
| `DspCache.Cache.Prune` | lib/src/dsp/DSPCache.cpp:477-502 | Removes exactly the expired files |
| `DspCache.Cache.RefreshStats` | lib/src/dsp/DSPCache.cpp:125-140 | Recomputes size and count from the directory |
| `DspCache.Cache.CacheSizeBytes` | lib/src/dsp/DSPCache.cpp:511-516 | Always equals a fresh recomputation, whether or not the stale flag was set |
| `DspCache.Cache.CacheEntryCount` | lib/src/dsp/DSPCache.cpp:518-523 | Always equals the number of files |
| `DspCache.Cache.IsWarm` | lib/src/dsp/DSPCache.cpp:525-530 | True if and only if the directory holds a file |
| `FaultInjection.TriggersWithinLimit` | lib/src/faults/FaultInjector.cpp:40-124 | Over every interleaving of the four calls the trigger count is the number of triggers since the last reset or configure modulo 2^32, and that number never exceeds a non-zero limit |
| `FaultInjection.ExpiredLasts` | lib/src/faults/FaultInjector.cpp:54-116 | Once expired, nothing but reset or configure changes the injector, and it never fires |
| `FaultInjection.LimitExpires` | lib/src/faults/FaultInjector.cpp:107-114 | Reaching a non-zero limit leaves the injector expired |
| `FaultInjection.AnswersIff` | lib/src/faults/FaultInjector.cpp:17-88 | On fields: the answer is yes if and only if the injector is enabled, not expired, has not fired if Once, is below a non-zero limit if Random or Persistent, has not timed out if Timed, and the roll is below the probability or that is 100; asking changes an injector only by its timeout |
| `FaultInjection.HundredRolls` | lib/src/faults/FaultInjector.cpp:17-21 | Of the hundred rolls an injector that may fire fires on exactly as many as its probability says |
| `FaultInjection.InjectsSo` | lib/src/faults/FaultInjector.cpp:90-116 | On fields: refused without change if expired or disabled; otherwise one more trigger, an event of the configured type with the given or the default text, expired at a non-zero limit and else Triggered if Once |
| `FaultInjection.FaultInjector.Configure` | lib/src/faults/FaultInjector.cpp:40-47 | Performs the configure step: the new configuration, no trigger, the clock read, active if and only if enabled |
| `FaultInjection.FaultInjector.ShouldInject` | lib/src/faults/FaultInjector.cpp:54-88 | Performs the question step for every clock value and dice roll; the answer is also stated on the fields, with the probability between its bounds |
| `FaultInjection.FaultInjector.Inject` | lib/src/faults/FaultInjector.cpp:90-116 | Performs the inject step; counter, state and event are also stated on the fields |
| `FaultInjection.FaultInjector.Reset` | lib/src/faults/FaultInjector.cpp:118-124 | Performs the reset step: the same configuration, no trigger, the clock read, active if and only if enabled |
| `FaultManagement.OneEventPerTrigger` | lib/src/faults/FaultManager.cpp:41-58 | Over every run of manager calls that does not clear the log, it grows by exactly one event per trigger, in order, each of the requested type |
| `FaultManagement.OnceFiresOnce` | lib/src/faults/FaultManager.cpp:41-78 | Driven only through the manager, a Once injector fires at most once between resets |
| `FaultManagement.CallOnOne` | lib/src/faults/FaultManager.cpp:41-58 | One manager call changes the trigger count of one injector at most, by one, and only if it was allowed to fire |
| `FaultManagement.FaultManager.InjectFault` | lib/src/faults/FaultManager.cpp:41-58 | Asks injectors in an arbitrary order until one of the type fires; stops there |
| `FaultManagement.FaultManager.RegisterInjector` | lib/src/faults/FaultManager.cpp:22-29 | Refuses a known name and otherwise adds the injector |
| `FaultManagement.FaultManager.UnregisterInjector` | lib/src/faults/FaultManager.cpp:31-39 | Removes a known name and reports an unknown one |
| `FaultManagement.FaultManager.ResetAll` | lib/src/faults/FaultManager.cpp:71-78 | Resets every injector and nothing else of it, and clears the log as the code does |
| `VirtualProgrammer.CancelIsNotLost` | lib/src/elf/VirtualProgrammer.cpp:16-155 | For every configuration, also a zero chunk size, and every interleaving: a cancel that lands before the last check keeps the run from ever succeeding or setting the executed flag, and within eight steps of its own the executing thread has returned an error, even though the state field may be overwritten meanwhile |
| `VirtualProgrammer.CaughtStep` | lib/src/elf/VirtualProgrammer.cpp:27-32 | Being caught is kept by every step of every thread |
| `VirtualProgrammer.CaughtRankFalls` | lib/src/elf/VirtualProgrammer.cpp:27-155 | Every step of a caught thread brings it closer to its end and no other thread puts it back |
| `VirtualProgrammer.PastTheCheck` | lib/src/elf/VirtualProgrammer.cpp:127-142 | A cancel that comes after the last check cannot stop a run that does not fail to start |
| `VirtualProgrammer.EnoughStepsFinish` | lib/src/elf/VirtualProgrammer.cpp:87-150 | With a positive chunk size, or nothing to transfer, every schedule that runs the executing thread often enough ends the run |
| `VirtualProgrammer.UndisturbedRun` | lib/src/elf/VirtualProgrammer.cpp:46-150 | Without cancel or fault, whatever state an earlier run left, reported bytes never decrease and end exactly at the total; the run ends if and only if the chunk size is positive or there is nothing to transfer |
| `VirtualProgrammer.ZeroChunkNeverEnds` | lib/src/elf/VirtualProgrammer.cpp:103-121 | With a zero chunk size and something to transfer the loop never ends |
| `VirtualProgrammer.DoneStays` | lib/src/elf/VirtualProgrammer.cpp:144-155 | A finished run keeps its result whatever other threads do |
| `ProgrammerFaults.Outcome` | lib/src/elf/VirtualProgrammer.cpp:46-155 | For every configuration and every start without a cancel, once the run has ended: it succeeded if and only if no fault is configured; otherwise the result is that of the first faulty stage in the order load, verify, prepare, transfer, timeout, start, the state is Failed and the executed flag is as before; the reports are exactly the expected ones. It ends unless a loop of chunk size zero is entered with something to transfer |
| `ProgrammerFaults.EarlyAvoidsLoop` | lib/src/elf/VirtualProgrammer.cpp:46-101 | A fault before the loop keeps the run out of it, whatever the chunk size |
| `ProgrammerFaults.ChunkReportAt` | lib/src/elf/VirtualProgrammer.cpp:103-121 | The k-th report of the loop is at k + 1 chunks or at the total |
| `ProgrammerFaults.TrackStep` | lib/src/elf/VirtualProgrammer.cpp:27-150 | Every undisturbed step keeps the relation between position, state, executed flag and reports made so far |
| `ProgrammerThread.Programmer.Execute` | lib/src/elf/VirtualProgrammer.cpp:144-150 | The five stages, the chunk loop observed for any number of rounds. An undisturbed call that returns gives the result of the first faulty stage, success if and only if no fault is configured, with exactly the expected reports, and on failure leaves the executed flag alone and the state Failed; it returns when an earlier fault strikes or the rounds suffice, and never with a zero chunk size and something to transfer. A call cancelled beforehand returns WasCancelled, or InvalidElf if loading fails, and executes nothing |
| `ProgrammerThread.Programmer.LoadImage` | lib/src/elf/VirtualProgrammer.cpp:46-55 | This stage is a stretch of the machine's steps |
| `ProgrammerThread.Programmer.VerifyImage` | lib/src/elf/VirtualProgrammer.cpp:57-70 | The same, with the check for a cancel first |
| `ProgrammerThread.Programmer.PrepareExecution` | lib/src/elf/VirtualProgrammer.cpp:72-85 | The same |
| `ProgrammerThread.Programmer.TransferImage` | lib/src/elf/VirtualProgrammer.cpp:87-125 | The same for the chunk loop observed for any number of rounds: finished within total rounds for a positive chunk size, never successfully finished for a zero one |
| `ProgrammerThread.Programmer.StartExecution` | lib/src/elf/VirtualProgrammer.cpp:127-142 | The same; the only stage that sets the executed flag |
| `ProgrammerThread.Programmer.CheckCancelled` | lib/src/elf/VirtualProgrammer.cpp:27-32 | The check is a stretch of steps from reading the flag to reading the state, storing and reporting Cancelled in between if the flag is up |
| `ProgrammerThread.Programmer.Cancel` | lib/src/elf/VirtualProgrammer.cpp:152-155 | The two stores of a cancel, one after the other |
| `ProgrammerThread.Consequences` | lib/src/elf/VirtualProgrammer.cpp:16-155 | The interleaving theorems carried over to any undisturbed execution; one that starts cancelled never gets past its first check |
| `Crc32.ComputeFileCrc32` | lib/src/dsp/DSPBuilder.cpp:33-79 | For every byte string and every split into reads the table-driven result is the bit-at-a-time CRC with the reflected polynomial 0xEDB88320 (section 8 of RFC 1952); a file that cannot be opened gives 0 |
| `Crc32.FeedChunk` | lib/src/dsp/DSPBuilder.cpp:74-76 | The inner loop feeds the bytes of one read |
| `Crc32.TableIsEightSteps` | lib/src/dsp/DSPBuilder.cpp:38-71 | Each of the 256 table constants is eight bit steps of its index |
| `Crc32.TableFeedIsFeed` | lib/src/dsp/DSPBuilder.cpp:75 | One table step is eight bit steps of the register mixed with the byte |
| `Crc32.EightStepsLinear` | lib/src/dsp/DSPBuilder.cpp:75 | Eight bit steps distribute over exclusive or |
| `Crc32.FeedAllConcat` | lib/src/dsp/DSPBuilder.cpp:72-77 | Feeding a concatenation is feeding its parts in turn, which is why the split does not matter |
| `Crc32.FeedWord` | lib/src/dsp/DSPBuilder.cpp:72-77 | Four bytes are thirty-two bit steps on the register mixed with the little-endian word they form |
| `Crc32.ShortBurstDetected` | lib/src/dsp/DSPBuilder.cpp:33-79 | Any change confined to at most four consecutive bytes changes the checksum, whatever surrounds them |
| `Crc32.CheckValue` | lib/src/dsp/DSPBuilder.cpp:33-79 | The checksum of the digits 1 to 9 is 0xCBF43926, that of nothing is zero |
| `Repository.Repository.RebuildIndex` | lib/src/dsp/DSPRepository.cpp:1008-1085 | After rebuilding, in whatever order the packages come, each of the seven indexes lists under every key exactly the places that mention it, each once, and each of the four flat lists holds every place of its kind exactly once; every reference is to a stored package |
| `Repository.Repository.Scan` | lib/src/dsp/DSPRepository.cpp:329-342 | Replaces the packages by those of the three directories, later ones winning, and reindexes |
| `Repository.Repository.ScanPath` | lib/src/dsp/DSPRepository.cpp:344-348 | Adds the packages of one directory and reindexes |
| `Repository.Repository.Clear` | lib/src/dsp/DSPRepository.cpp:472-486 | Leaves no package and no reference |
| `Repository.Repository.ScanDirectory` | lib/src/dsp/DSPRepository.cpp:569-590 | Takes over every loadable package with a non-empty id |
| `Repository.LastEntryWins` | lib/src/dsp/DSPRepository.cpp:580-587 | The last entry with an id is the one stored |
| `Repository.UnnamedKept` | lib/src/dsp/DSPRepository.cpp:569-590 | A package no entry names is kept as it was |
| `Repository.Repository.Search` | lib/src/dsp/DSPRepository.cpp:359-370 | Exactly the packages that meet every set field of the query, once each, in ascending order of their ids |
| `PackageQuery.MatchesIff` | lib/src/dsp/DSPRepository.cpp:1088-1212 | The test of the search, field by field: some of the four texts holds the search text as a part or is empty; vendor, chipset, loader and tag agree letter by letter, up to the case of the 26 letters if asked; boot mode and protocol are listed; the version number lies within the non-zero bounds; some protocol or vendor property holds the capability; state and origin are equal |
| `PackageQuery.PassesIff` | lib/src/dsp/DSPRepository.cpp:272-288 | A text passes if and only if it is empty or splits into three parts of which the middle one reads like the query |
| `PackageQuery.SearchTextTrustedIff` | lib/src/dsp/DSPRepository.cpp:1089-1100 | The search text decides correctly if and only if some field really holds it or none of the four is empty, since an empty field passes for every text |
| `Strings.AscendingUnique` | lib/src/dsp/DSPRepository.cpp:366-369 | So the result of a search does not depend on the order of the hash map |
| `Strings.LessIff` | lib/src/dsp/DSPRepository.cpp:366-368 | One text is before another if and only if, after a common part, it ends or has the smaller character |
| `Repository.Repository.ByProtocol` | lib/src/dsp/DSPRepository.cpp:401-406 | Finds exactly the packages having a protocol of the same name |
| `Repository.Repository.ByBootMode` | lib/src/dsp/DSPRepository.cpp:408-413 | Finds exactly the packages having a boot mode of the same name |
| `Repository.Repository.ByOrigin` | lib/src/dsp/DSPRepository.cpp:421-426 | Finds exactly the packages with the origin |
| `Repository.Repository.ByVendor` | lib/src/dsp/DSPRepository.cpp:380-385 | Finds exactly the packages whose vendor text is the name of the vendor, an empty text counting as Unknown |
| `Repository.Repository.ByLoader` | lib/src/dsp/DSPRepository.cpp:415-419 | Finds exactly the packages with a loader of that display name or made for a vendor of that name |
| `Repository.Repository.AllBootModes` | lib/src/dsp/DSPRepository.cpp:448-450 | Every boot mode record of every package, once |
| `Repository.Repository.AllTransports` | lib/src/dsp/DSPRepository.cpp:452-454 | The same for transports |
| `Repository.Repository.AllProtocols` | lib/src/dsp/DSPRepository.cpp:456-458 | The same for protocols |
| `Repository.Repository.AllVendors` | lib/src/dsp/DSPRepository.cpp:460-462 | One vendor record for each package that names its vendor |
| `Repository.ProtocolAgrees` | lib/src/dsp/DSPRepository.cpp:1149-1164 | For every repository and named protocol, byProtocol equals the single-field search if and only if every package found lies within the version bounds of the query |
| `Repository.BootModeAgrees` | lib/src/dsp/DSPRepository.cpp:1140-1164 | The same for boot modes, with the further condition, needed only for the two modes that have no name, that every package with an unnamed mode has this one |
| `Repository.UnnamedModesConfused` | lib/src/dsp/DSPRepository.cpp:121-135 | A repository of one package in mode Normal, asked for mode Download: the lookup finds it, the search does not |
| `Repository.OriginAgrees` | lib/src/dsp/DSPRepository.cpp:1206-1209 | The same for origins |
| `Repository.VendorAgrees` | lib/src/dsp/DSPRepository.cpp:1102-1110 | The same for the case-sensitive vendor search; ignoring case finds at least as much |
| `Repository.DefaultBounds` | lib/src/dsp/DSPRepository.cpp:1158-1164 | The bounds of a default-constructed query, 1.0.0 twice, admit version 1.0.0 only; bounds of 0.0.0 admit every version |
| `Repository.DefaultQueryMisses` | lib/src/dsp/DSPRepository.cpp:1149-1164 | So a default query for a protocol misses every other version that byProtocol finds |
| `RepositoryIndex.AddKeys` | lib/src/dsp/DSPRepository.cpp:1027-1059 | Pushing one package under its keys extends the index by exactly its mentions |
| `RepositoryIndex.AddPlaces` | lib/src/dsp/DSPRepository.cpp:1061-1083 | Pushing the parts of one package extends a flat list by exactly those places |
| `RepositoryIndex.ReferenceIsLive` | lib/src/dsp/DSPRepository.cpp:1008-1085 | Every listed reference points into a stored package, at a place holding the key |
| `RepositoryIndex.LookupIds` | lib/src/dsp/DSPRepository.cpp:380-426 | A lookup returns exactly the packages having the key |
| `Discovery.BootModeRoundTrip` | lib/src/dsp/DSPRepository.cpp:121-149 | A boot mode reads back from its name if and only if it is Unknown or one of the ten that have a name |
| `Discovery.VendorRoundTrip` | lib/src/dsp/DSPRepository.cpp:63-91 | Every vendor reads back from its name |
| `Discovery.ProtocolRoundTrip` | lib/src/dsp/DSPRepository.cpp:93-119 | Every protocol reads back from its name |
| `QuirkDatabase.Resolver.Resolve` | lib/src/dsp/VendorQuirk.cpp:437-529 | The applicable quirks are exactly those that are enabled, allowed, found, fitting and severe enough, each said on the fields of quirk, device and policy, once each; every one is in exactly the bucket of its severity, in the same order; there are blockers if and only if a critical quirk is applicable |
| `QuirkDatabase.BucketsPartition` | lib/src/dsp/VendorQuirk.cpp:510-524 | The four buckets hold every applicable quirk exactly once between them |
| `QuirkDatabase.CriticalBlocks` | lib/src/dsp/VendorQuirk.cpp:497-524 | Every enabled, allowed, found and fitting critical quirk is applicable and blocks, whatever the minimum |
| `QuirkDatabase.HigherMinimumShrinks` | lib/src/dsp/VendorQuirk.cpp:497-507 | For the same quirks and device, what applies under a higher minimum applies under a lower one |
| `QuirkDatabase.Resolver.Deduplicate` | lib/src/dsp/VendorQuirk.cpp:458-477 | Each enabled candidate once whose vendor is open or allowed by the policy |
| `QuirkDatabase.Resolver.Filter` | lib/src/dsp/VendorQuirk.cpp:479-526 | Each candidate that fits the device and reaches the minimum severity, both said on fields, sorted into its bucket |
| `QuirkDatabase.Database.RegisterQuirk` | lib/src/dsp/VendorQuirk.cpp:254-270 | Keeps the first quirk of an id; each of the seven indexes still lists an id under a key if and only if its stored quirk says so |
| `QuirkDatabase.Database.Rebuild` | lib/src/dsp/VendorQuirk.cpp:215-252 | Registers all loaded quirks afresh and marks the database built |
| `QuirkDatabase.FirstFileWins` | lib/src/dsp/VendorQuirk.cpp:254-255 | The first file with an id is the one stored |
| `QuirkDatabase.Database.FindByVendor` | lib/src/dsp/VendorQuirk.cpp:306-314 | Exactly the stored quirks of the vendor, none before the database is built |
| `QuirkDatabase.Database.FindByChipset` | lib/src/dsp/VendorQuirk.cpp:316-342 | Exactly the stored quirks under the exact key or matching partially |
| `QuirkDatabase.Database.FindByProtocol` | lib/src/dsp/VendorQuirk.cpp:344-352 | Exactly the stored quirks of the protocol |
| `QuirkDatabase.Database.FindByBootMode` | lib/src/dsp/VendorQuirk.cpp:354-362 | Exactly the stored quirks of the boot mode |
| `QuirkDatabase.Database.FindByScope` | lib/src/dsp/VendorQuirk.cpp:364-372 | Exactly the stored quirks of the scope |
| `QuirkDatabase.Database.FindBySeverity` | lib/src/dsp/VendorQuirk.cpp:374-382 | Exactly the stored quirks of the severity |
| `QuirkDatabase.Database.FindByAction` | lib/src/dsp/VendorQuirk.cpp:384-392 | Exactly the stored quirks of the action |
| `Quirks.MissedExactly` | lib/src/dsp/VendorQuirk.cpp:437-529 | For all chipsets: a matching quirk is missed by every lookup if and only if it is not global, leaves protocol and boot mode open while the device states both, exactly one side leaves the vendor open, and its chipset is neither a partial match nor stored under the printed name; and when the latter adds nothing |
| `Quirks.SelectedIff` | lib/src/dsp/VendorQuirk.cpp:437-529 | Being selected, on fields: enabled; vendor open, allowed or policy without vendors; found by some lookup; vendor, chipset, protocol and boot mode equal or left open; severity at least the minimum |
| `Quirks.DefaultPolicyApplies` | lib/include/mbootcore/dsp/VendorQuirk.hpp:73-80 | Under the default minimum exactly the quirks of severity Info drop out |
| `Quirks.CriticalIgnoresMinimum` | lib/src/dsp/VendorQuirk.cpp:497-500 | A critical quirk applies under every minimum or under none |
| `Quirks.NamedChipsetFound` | lib/src/dsp/VendorQuirk.cpp:316-342 | A quirk naming a chipset that matches a named chipset is always found |
| `Quirks.ChipsetLookup` | lib/src/dsp/VendorQuirk.cpp:316-342 | The pairwise form: if neither chipset has a slash in vendor or family (a variant may hold one), the lookup finds exactly the partial matches |
| `Quirks.LookupTrustedIff` | lib/src/dsp/VendorQuirk.cpp:316-342 | The condition on the queried id alone: whatever is stored, the lookup returns only matching chipsets if and only if the id has no variant and no slash in vendor or family |
| `Quirks.VendorKeyIsDead` | lib/src/dsp/VendorQuirk.cpp:259-263 | For such chipsets the extra vendor key is never hit |
| `Quirks.SlashConfusesLookup` | lib/src/dsp/VendorQuirk.cpp:321-325 | Two ids with one printed name, of different vendors, each found by a query for the other; one of them has no slash in any field |
| `Flashing.PlanQueue` | lib/src/firmware/FirmwareExecutor.cpp:10-124 | For every package, with a flash device and no cancellation, executing the generated plan queues the optional GPT job, a flash job per ordinary image in order, then a verify job per ordinary image in the same order; if an image has no data, exactly what precedes it, with one failed step |
| `FlashQueue.ExecutedQueue` | lib/src/firmware/FirmwareExecutor.cpp:10-124 | The executed queue on job fields: the k-th flash and verify jobs carry data and partition of the k-th ordinary image and ids fw_flash_ and fw_verify_ with that partition; cut before the first image without data |
| `FlashQueue.OrdinaryPlaces` | lib/src/firmware/FlashPlan.cpp:26-30 | The ordinary images are all images that are neither programmer nor GPT, in their order |
| `FlashQueue.StepJobs` | lib/src/firmware/FirmwareExecutor.cpp:54-124 | What each kind of step adds and when it fails |
| `Flashing.CancelLeavesPrefix` | lib/src/firmware/FirmwareExecutor.cpp:16-25 | Cancelling at any poll leaves a prefix of that queue |
| `Flashing.CancelledAfter` | lib/src/firmware/FirmwareExecutor.cpp:21-40 | A cancel first seen by the poll after n steps leaves exactly what the first n steps do, counted as n created, unless one of them had stopped the run already |
| `Flashing.StepCounts` | lib/src/firmware/FirmwareExecutor.cpp:30-37 | A step that fails counts as failed and stops the run unless it is optional; every step that does not stop the run counts as created |
| `Flashing.TotalSizeAdds` | lib/src/firmware/FlashPlan.cpp:44 | The byte total of a concatenation is the sum of the totals |
| `Flashing.NoDeviceNoJobs` | lib/src/firmware/FirmwareExecutor.cpp:54-124 | Without a flash device nothing is ever queued |
| `Flashing.NoDeviceOutcome` | lib/src/firmware/FirmwareExecutor.cpp:54-124 | and a plan then succeeds if and only if the package has neither a GPT nor an ordinary image |
| `Flashing.RunDoneIff` | lib/src/firmware/FirmwareExecutor.cpp:21-40 | Uncancelled execution succeeds if and only if every step does |
| `FlashExecutor.Executor.ExecutePlan` | lib/src/firmware/FirmwareExecutor.cpp:10-41 | The loop appends exactly the jobs of the run and leaves its status and counters |
| `FlashExecutor.Executor.CreateJobForStep` | lib/src/firmware/FirmwareExecutor.cpp:54-124 | Appends at most one job, by step kind, device and data |
| `FlashExecutor.Executor.ExecutePackage` | lib/src/firmware/FirmwareExecutor.cpp:43-52 | With a device and enough polls: if every ordinary image has data, the queue gains the optional GPT job, then per ordinary image a flash job and after those per ordinary image a verify job, with the data of the image, the partition it names or else its own name, and an id made of that; otherwise the queue ends before the first image without data and the run fails |
| `Flashing.GeneratePlan` | lib/src/firmware/FlashPlan.cpp:8-51 | Programmer step, GPT step, one flash step and one verify step per ordinary image in order, each with the size and data of its image and the partition it names or else its own name; the byte total is the sum of the ordinary image sizes modulo 2^64 |
| `Flashing.AddVerifySteps` | lib/src/firmware/FlashPlan.cpp:148-166 | One verify step per ordinary image, in order |
| `Versions.RoundTripIff` | sdk/src/Version.cpp:20-90 | A semantic version survives printing and parsing if and only if its pre-release has no plus sign |
| `Versions.ParseIsStable` | sdk/src/Version.cpp:20-90 | For every text, printing what was parsed and parsing again changes nothing |
| `Versions.ThreeNumbersRead` | sdk/src/Version.cpp:31-90 | Three digit strings are major, minor and patch from the left, with leading zeros and one trailing dot allowed; two are not a version |
| `Versions.NotThreeNumbers` | sdk/src/Version.cpp:65-85 | Three texts of which one is not a number make the version 0.0.0 |
| `Versions.NumericIff` | sdk/src/Version.cpp:70-75 | A number is one or more of the ten digits |
| `Versions.NumberIs` | sdk/src/Version.cpp:77-81 | A number from 2^63 on reads as 2^32 - 1, a smaller one as its low 32 bits |
| `Versions.PrintedExample` | sdk/src/Version.cpp:20-90 | 1.2.3-alpha+b5 is the text of its five fields |
| `Versions.Parse` | sdk/src/Version.cpp:31-90 | The token loop and the splitting at the first plus and minus compute exactly the specified version, 0.0.0 for every malformed text |
| `Versions.ReadNumbers` | sdk/src/Version.cpp:65-85 | Succeeds if and only if the text has exactly three tokens, all digits, with std::getline tokenization |
| `Versions.CompareTransitive` | sdk/src/Version.cpp:92-103 | The comparison is transitive, strictly if one step is strict |
| `Versions.CompareAntisymmetric` | sdk/src/Version.cpp:92-103 | Swapping the arguments flips the sign, so the comparison is total |
| `Versions.CompareEqualIff` | sdk/src/Version.cpp:92-103 | Zero if and only if the versions agree in all but build metadata |
| `Versions.CompareIsPrecedence` | sdk/src/Version.cpp:92-103 | The comparison on values: the three fields as one number decide, then a release is above its pre-releases, which are in the order of their texts |
| `Versions.PackageVersionRoundTrip` | lib/src/dsp/DSPRepository.cpp:188-205 | Every triple of 32-bit numbers survives printing and parsing through the tolerant number parser |
| `Versions.PackageVersionRead` | lib/src/dsp/DSPRepository.cpp:188-205 | For all numbers: one that does not fit 32 bits is replaced by that of version 1.0.0, the others are kept |
| `Versions.MalformedPackageVersion` | lib/src/dsp/DSPRepository.cpp:192-205 | Three parts of which one is not a number make version 1.0.0 |
| `SafeParser.FromCharsUint64` | lib/src/SafeParser.hpp:35-66 | Trimming, sign, hexadecimal prefix, digits, overflow: equal to the specified parser on every text |
| `SafeParser.TrimView` | lib/src/SafeParser.hpp:29-33 | The two loops compute the trimmed text |
| `SafeParser.TrimPadding` | lib/src/SafeParser.hpp:25-33 | Trimming takes exactly the surrounding white space off |
| `SafeParser.DecimalReadsBack` | lib/src/SafeParser.hpp:35-66 | A printed number, padded and with an optional plus sign, reads back if and only if it fits 64 bits |
| `SafeParser.HexReadsBack` | lib/src/SafeParser.hpp:50-55 | The same for hexadecimal digits behind either prefix |
| `SafeParser.Uint32ReadsBack` | lib/src/SafeParser.hpp:68-73 | A printed number reads back through the 32-bit wrapper if and only if it fits 32 bits |
| `SafeParser.NegativeRefused` | lib/src/SafeParser.hpp:35-66 | A minus sign is refused whatever number follows |
| `SafeParser.AcceptedIff` | lib/src/SafeParser.hpp:56-65 | A digit text is accepted if and only if it is not empty, holds digits only and its value fits 64 bits |
| `SafeParser.DigitValueIs` | lib/src/SafeParser.hpp:50-62 | Exactly the hexadecimal digits of either case have a value below sixteen, each its own |
| `SafeParser.ReadExamples` | lib/src/SafeParser.hpp:35-66 | Two padded texts and their values |

## Left out

- MemoryImage.Build: says nothing about the bytes of several segments when the offset-plus-size sum of the copy guard wraps around 2^64, because the copy is then undefined; everything else is stated for wrapping segments too. Unsorted building (the option that turns sorting off) is not modelled.
- ImageMeaning.ImageBytes: and the results built on it ask that required segments do not wrap around 2^64.
- ImageMeaning.AlwaysMemoryIff: is about a given order of segments of equal address, of which at most one can have memory.
- ElfParser.Parse: inputs of 2^63 bytes and more are excluded, since the code's own bound arithmetic is only meaningful below; warnings and error texts are not modelled, and neither are the offset, alignment, machine and type checks of the separate validator.
- VirtualProgrammer: the interleavings are modelled on values, since methods cannot be interrupted; `ProgrammerThread` holds the stages in their imperative form. Sleeping and what callbacks do are not modelled.
- ProgrammerThread.Programmer.Execute: a loop that never ends is observed for any number of rounds, since a method must return. An image that was never loaded cannot occur inside an execution.
- FaultManagement.FaultManager.InjectFault: which of several ready injectors fires depends on the hash map and is left open.
- PackageManager.Manager.Install: copying files and the success of the rescan are inputs; progress callbacks are absent.
- PackageManager.Manager.UninstallInResolutionOrder: asks for the lifecycle invariant, which every reachable state has.
- Repository.Repository.Search: statistics are represented by the package id; sorting is modelled as ordered insertion.
- FlashExecutor.Executor.ExecutePlan: cancellation is the number of polls that find the flag down; progress callbacks and logging are absent.
- Versions.CompareTransitive: the order is the code's plain string order of pre-releases, not the precedence of section 11 of Semantic Versioning 2.0.0.
- Install and update planning (`resolveInstall`, `resolveUpdate`), which look only at direct dependencies.
- `repair` and `reload` of the manager, which rewrite manifests or the whole map outside the checks.
- The builder's SHA-256, whose length counter includes padding bytes.
- The repository lookups by id and by chipset, a map access and a scan by printed name.
- Failing file operations of the cache; `hasMetadata`, `hasLoader` and `hasLookup`, which only test a file.
- The configuration manager, vendor tables, diagnostics, plugin compatibility and loader verification: constants or flat records.
- Desktop studio, command line, documentation generator and environment checks: interface and process code.
