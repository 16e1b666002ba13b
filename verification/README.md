# Bully loader: verified model

The program loads the x86_64 Android build of a game on Linux. It copies and links two ELF files,
patches their code, stands in for Bionic's threading, serves the game's packed assets and feeds it a
game controller. This Dafny project models five parts of it and proves what the rest relies on:

- **Threading bridge** (`OnceProtocol.dfy`, `LazyBridge.dfy`, `BridgeAnswers.dfy`). `b_once` and the lazy replacement of
  Bionic mutex, condition and rwlock words by real objects, as transition systems with any number of
  threads, one step per source step and sequentially consistent memory.
- **Asset archive** (`AssetPath.dfy`, `IndexFormat.dfy`, `StrOrder.dfy`, `AssetArchive.dfy`,
  `ImgPacks.dfy`, `SliceHandle.dfy`). Path normalisation, the index parser, the growing table, its one-time sort and
  binary search, image directories, and seekable handles on slices.
- **ELF loader and linker** (`ElfImage.dfy`, `LinkTables.dfy`, `TableFormat.dfy`, `Relocation.dfy`,
  `Linking.dfy`, `LinkedWords.dfy`, `SymbolTable.dfy`, `ImportOverride.dfy`). Segments, the two relocation passes over byte memory that
  holds its own tables, the symbol snapshot, and the redirection of imports.
- **Code patching** (`CodePatch.dfy`, `Detour.dfy`). Jumps planted over functions, and a detour whose
  trampoline preserves the meaning of every run.
- **Gamepad pump** (`Gamepad.dfy`). Polled snapshots turned into events from which the game can
  reconstruct the controller.

`Prelude.dfy` holds bytes, little-endian words and C strings. Methods that change state are proved
against functions on values; the theorems are about those functions. What such a function says of a
format, a table or a rule is stated a second time without it: by a round trip through an encoding, in
byte values and literal numbers, or over the events that callers see. `dafny verify dfyconfig.toml`
checks everything.

Some properties one would expect are false of the code. The model keeps the code, and each has its
exact condition:

- Normalising a path twice can strip twice (`AssetPath.NormalizeIdempotentIff`).
- A handle whose slice leaves its file never reaches its end (`SliceHandle.EofReachableIff`).
- Destroying a mutex or condition variable that was statically initialised to a small nonzero word
  frees an address that is no object (`LazyBridge.DestroySafeIff`).
- An import that was never resolved makes a second override hand out the hook itself
  (`ImportOverride.CellHoldsOriginalIff`).
- The stored words are not always those of the psABI: GLOB_DAT and JUMP_SLOT addends are added, and so
  is the load base to absolute symbols (`Linking.AgreesWithPsAbiIff`).
- Threads can be left waiting in `b_once` for good, in some run, unless the init routines call each
  other along an acyclic order (`OnceProtocol.FinishesIffAcyclic`).

Two IMG packs can never be loaded: the index table holds lower-case paths only, and `Trigger.dir` and
`Cuts.dir` are looked up as they are written (`ImgPacks.TwoPacksStayEmpty`).

## Model

| member | source | states |
|---|---|---|
| `OnceProtocol.NextInv` | src/pthread_bridge.c:165-182 | one step of any thread keeps the invariant: at most one activation initialises a control, g_lock is held by exactly the thread in a critical section, and the log is that of an abstract once |
| `OnceProtocol.RunsAreOnce` | src/pthread_bridge.c:165-182 | in every interleaving from controls at 0, each init is entered and left at most once, by one thread, and no call returns before it has been left |
| `OnceProtocol.WordsOnlyClimb` | src/pthread_bridge.c:168-178 | over every run a control's word only moves from 0 to 1 to 2 |
| `OnceProtocol.HolderRuns` | src/pthread_bridge.c:167-171 | a thread that holds g_lock is never blocked and lets go within two steps or makes progress at once |
| `OnceProtocol.Progress` | src/pthread_bridge.c:165-182 | with init routines that call along an acyclic order, every reachable unfinished state has a schedule of at most five steps that leaves less work to do |
| `OnceProtocol.EffortIsBounded` | src/pthread_bridge.c:168-172 | whatever the schedule, the number of steps outside the waiting loop is bounded in advance |
| `OnceProtocol.RunsCanFinish` | src/pthread_bridge.c:165-182 | under an acyclic call order every run from controls at 0 can be continued until every call has returned |
| `OnceProtocol.FinishesIffAcyclic` | src/pthread_bridge.c:165-182 | every run, of any threads making any calls, can be continued until all have returned if and only if the init routines call each other along some acyclic order |
| `OnceProtocol.FinishedMeansInitialised` | src/pthread_bridge.c:173-181 | when all calls have returned, every control that was asked for has been initialised, exactly once |
| `LazyBridge.StepInv` | src/pthread_bridge.c:53-143 | one step of any thread keeps the invariant: words above 0x10000, but for raw memory, are addresses of live objects of the right kind, distinct slots have distinct objects, raw memory is used only by its initialisation, and what a thread has learnt stays true |
| `LazyBridge.StepRefines` | src/pthread_bridge.c:53-143 | a step that does not fault is a step of the abstract store with the same caller, call and return value, or changes nothing there |
| `LazyBridge.RunRefines` | src/pthread_bridge.c:53-143 | every interleaving, from static initialisers and raw memory of any content, is up to a fault a run of a store of mutexes, condition variables and rwlocks named by slot, all new at first; what that store does is what `BridgeAnswers` states |
| `LazyBridge.RunTallies` | src/pthread_bridge.c:83-85 | the owner and depth of a mutex are what the successful calls of its users add up to |
| `LazyBridge.MutualExclusion` | src/pthread_bridge.c:83-85 | judged by return values alone, no two threads hold a mutex at once and none holds it a negative number of times |
| `LazyBridge.OneObjectPerSlot` | src/pthread_bridge.c:64-73 | between init and destroy a slot keeps the one object that its lazy path made, for all threads |
| `LazyBridge.CallsMeet` | src/pthread_bridge.c:125-132 | a call reaches the live object its slot stands for at that moment, and no other slot's: signalers meet waiters |
| `LazyBridge.HolderNotBlocked` | src/pthread_bridge.c:68-71 | the holder of g_lock always has a step to make |
| `LazyBridge.HolderLeaves` | src/pthread_bridge.c:68-71 | and gives g_lock back after at most four |
| `LazyBridge.StaticWordFaults` | src/pthread_bridge.c:86-96 | a nonzero static word that is destroyed before use makes destroy free what is no object |
| `LazyBridge.DestroySafeIff` | src/pthread_bridge.c:86-96 | destroy is safe in every run if and only if every mutex and condition word that is not raw memory starts at 0 |
| `BridgeAnswers.CallAnswers` | src/pthread_bridge.c:83-85 | in every interleaving without a fault, a thread at its real call on a mutex, rwlock or condition variable has a step that returns r if and only if the earlier return values call for r: lock and trylock succeed exactly when no other thread holds the mutex, however often the caller does, else lock blocks and trylock returns EBUSY; unlock fails with EPERM exactly without a hold; readers and writers likewise |
| `BridgeAnswers.OnlyCalls` | src/pthread_bridge.c:83-85 | such a thread has no other step than that call |
| `BridgeAnswers.WaitAnswers` | src/pthread_bridge.c:125-127 | a wait is refused with EPERM exactly when its caller does not hold the mutex |
| `BridgeAnswers.WakeAnswers` | src/pthread_bridge.c:125-132 | a wait ends only when no other thread holds the mutex; it can end as signalled after a broadcast or when there were signals for all that sleep, and only early when there was no signal since it began |
| `BridgeAnswers.WriterAlone` | src/pthread_bridge.c:160-162 | judged by return values alone, one who writes is alone and nobody holds a negative share |
| `BridgeAnswers.NotBlocked` | src/pthread_bridge.c:64-143 | a thread in the bridge always has a step, unless it waits for g_lock while another holds it |
| `BridgeAnswers.StepsCount` | src/pthread_bridge.c:64-143 | and each step brings it nearer to its real call, or to the end of init or destroy, which is at most 14 steps away |
| `BridgeAnswers.BeginsCall` | src/pthread_bridge.c:83-85 | any call on slots that nobody is initialising or destroying can begin |
| `Prelude.LittleEndian` | src/asset_archive.c:76-82 | a word is the value of its bytes, least significant first |
| `AssetPath.NormalizePath` | src/asset_archive.c:84-96 | the buffer then holds the normalised string, which `NormalizeBytes` describes, NUL-terminated within its size; null arguments as in the source |
| `AssetPath.NormalizeBytes` | src/asset_archive.c:88-95 | from byte values: leading "/" and "./" pieces go, then up to size - 1 bytes follow, each as it was but a byte in 65..90 with 32 more and 92 as 47 |
| `AssetPath.LeadAndRest` | src/asset_archive.c:88 | every path is such a run of pieces and a rest that begins with none |
| `AssetPath.NormalizedBytes` | src/asset_archive.c:91-93 | no byte of a normalised path is in 65..90 or is 92 |
| `AssetPath.NormalizeKeepsIff` | src/asset_archive.c:88-95 | a path comes back as it was if and only if it fits, begins with no such piece and has no byte in 65..90 and no 92 |
| `AssetPath.NormalizeErasesCase` | src/asset_archive.c:91-93 | strings that are equal once 32 is added to each byte in 65..90 normalise alike |
| `AssetPath.NormalizeErasesLead` | src/asset_archive.c:88-91 | so do strings that differ in a leading run of "/" and "./" pieces and, after it, in the direction of slashes |
| `AssetPath.NormalizeIdempotentIff` | src/asset_archive.c:88-93 | a second pass changes nothing if and only if the stripped path does not begin with "\" or ".\" |
| `AssetPath.Basename` | src/asset_archive.c:98-101 | the part after the last slash: a suffix without slashes, preceded by one unless it is the whole path |
| `IndexFormat.RecordsIff` | src/asset_archive.c:147-170 | what is read from arbitrary bytes is the longest well-formed prefix of records up to the declared count, and only that |
| `IndexFormat.IndexRoundTrip` | src/asset_archive.c:147-170 | an encoded index yields its records in order, whatever follows it |
| `IndexFormat.RecordsBounded` | src/asset_archive.c:149-150 | whatever count is declared, at most (file_size - 4) / 10 records are read |
| `IndexFormat.RecsEntriesAnswer` | src/asset_archive.c:162-169 | the entries of a file are those that some record makes, by its name or by its name without "bullyorig/" or "bully/" |
| `StrOrder.StrCmpZero` | src/asset_archive.c:176-178 | strcmp is 0 exactly for equal strings |
| `StrOrder.FirstDifference` | src/asset_archive.c:176-178 | the first byte that differs decides, compared unsigned, and a proper prefix is less |
| `StrOrder.TotalOrder` | src/asset_archive.c:176-178 | the order of strcmp is total |
| `AssetArchive.Archive.Grow` | src/asset_archive.c:105-111 | a full table doubles from 512 and keeps its entries |
| `AssetArchive.Archive.AddRecord` | src/asset_archive.c:157-169 | a record appends its normalised name and its alias |
| `AssetArchive.Archive.LoadRecords` | src/asset_archive.c:147-170 | the loop appends exactly the entries of the records in the file, in order |
| `AssetArchive.Archive.LoadIndexFile` | src/asset_archive.c:124-173 | a missing or short file is refused and adds nothing |
| `AssetArchive.Archive.SortTable` | src/asset_archive.c:181-184 | afterwards the table is ordered and holds the same entries |
| `AssetArchive.ExchangeKeeps` | src/asset_archive.c:181-184 | one exchange of neighbours keeps the entries and moves the only disorder one place down |
| `AssetArchive.SearchHalves` | src/asset_archive.c:185-186 | in an ordered table a comparison rules out every entry on one side |
| `AssetArchive.Archive.FindZipEntry` | src/asset_archive.c:179-187 | the first lookup sorts; a lookup returns an entry of that path, or there is none |
| `AssetArchive.Archive.Init` | src/asset_archive.c:267-279 | index files and packs are loaded once; from then on the table holds exactly the entries of the index files, and each pack has the directory and image its two paths lead to, or is as it was because a path is not indexed or the directory cannot be read |
| `AssetArchive.Archive.FindIndexed` | src/asset_archive.c:179-187 | after init a path is found if and only if a record of some index file makes an entry of that path, and such an entry is returned |
| `AssetArchive.LookupMeaning` | src/asset_archive.c:103-187 | the same from the table's contents and the search alone, with the only candidate returned when there is only one |
| `AssetArchive.PathsFound` | src/asset_archive.c:124-173 | the entries are exactly those that some record of an index file data_k.zip.idx makes: with its offset and size, for data_k.zip, under its normalised name or what that has below "bullyorig/" or "bully/" |
| `AssetArchive.ZipOfIs` | src/asset_archive.c:142-145 | an index is named after its archive: of the name before the first ".idx" an entry keeps up to 15 bytes |
| `AssetArchive.Archive.OpenSlice` | src/asset_archive.c:199-225 | the handle starts at the slice, or past a local file header that stands there |
| `AssetArchive.Archive.LoadImgPack` | src/asset_archive.c:227-265 | on success the pack has its entries from the directory and its image from the entry of its two paths, otherwise one of three reasons holds; the table keeps its contents |
| `AssetArchive.Archive.LoadImgPacks` | src/asset_archive.c:274-275 | so for every pack |
| `ImgPacks.LoadedNeedsLowerCase` | src/asset_archive.c:228-230 | a pack is loaded only if its paths have no byte in 65..90 and no 92 |
| `ImgPacks.TwoPacksStayEmpty` | src/asset_archive.c:60-67 | whatever is on the disk, the packs for dat/ and cuts/ stay empty |
| `AssetArchive.DecodeDirectory` | src/asset_archive.c:253-261 | each whole 32-byte record is decoded, in order |
| `ImgPacks.DirectoryRoundTrip` | src/asset_archive.c:253-261 | records written as two little-endian words and a name padded with NUL to 24 bytes are read back in order, their names normalised, whatever incomplete record follows |
| `ImgPacks.SliceBegins` | src/asset_archive.c:205-213 | a slice begins where it was asked for, or, after the bytes 80, 75, 3, 4, past 30 bytes and the two lengths that bytes 26 to 29 hold, modulo 2^32 |
| `ImgPacks.DirDataIs` | src/asset_archive.c:232-241 | the directory bytes are the whole slice from there, and there are none if the file ends first |
| `AssetArchive.FindImgEntry` | src/asset_archive.c:301-306 | the first entry of that name, or there is none |
| `AssetArchive.Archive.OpenZipAsset` | src/asset_archive.c:295-299 | opens the slice of an entry that a record of an index file makes |
| `AssetArchive.Archive.OpenImgPackAsset` | src/asset_archive.c:308-339 | the pack whose prefix the path has decides alone; else the first pack with such a name |
| `ImgPacks.ChosenIs` | src/asset_archive.c:308-339 | what is opened is the first entry of the base name in the pack that decides: the first with entries whose prefix the path has, or, if there is none, the first that has such an entry |
| `ImgPacks.ChosenIff` | src/asset_archive.c:308-339 | and whenever there is such a pack and entry it is opened |
| `ImgPacks.ImgExact` | src/asset_archive.c:319-321 | for an entry inside an image inside its file, 32-bit block arithmetic is exact |
| `ImgPacks.ImgComposes` | src/asset_archive.c:308-339 | for any pack and entry, opening and reading to the end yields image bytes 2048 * start to 2048 * (start + count) |
| `ImgPacks.ImgAssetReads` | src/asset_archive.c:308-339 | after init, reading the handle of a path to its end yields bytes 2048 * start to 2048 * (start + count) of an image, where start and count are the little-endian words of a 32-byte directory record whose name normalises to the base name, and entries of index files lead to both |
| `ImgPacks.PackPathOpens` | src/asset_archive.c:227-339 | from the bytes on the disk: when the two paths of a pack are indexed once and the directory slice holds written records, a path with its prefix whose base name is first that of record j opens the handle on 2048 * start_j to 2048 * (start_j + count_j) of the image |
| `ImgPacks.ImgSlicesDisjoint` | src/asset_archive.c:319-321 | entries with disjoint blocks open disjoint slices |
| `SliceHandle.AssetRead` | src/asset_archive.c:366-388 | the bytes, the count and the new position of a read; the rest of the buffer is as before |
| `SliceHandle.AssetSeek` | src/asset_archive.c:390-409 | a seek to before the start, or with an unknown whence, fails and changes nothing |
| `SliceHandle.RunRefines` | src/asset_archive.c:366-436 | over every run of read, seek, tell and eof a handle inside its file gives back what the bytes from start to start + size with a cursor do |
| `SliceHandle.ReadsArePrefix` | src/asset_archive.c:376-383 | from position 0 the chunks of any reads concatenate to a prefix of the slice |
| `SliceHandle.EofReachableIff` | src/asset_archive.c:376-383 | reading can reach the end if and only if the slice is empty or lies inside its file |
| `SliceHandle.AssetGetc` | src/asset_archive.c:438-442 | the next byte, or -1 at the end |
| `SliceHandle.RemainingIs` | src/asset_archive.c:376-383 | what can still be read are the bytes of the file from the cursor to the end of the slice, or of the file |
| `SliceHandle.AssetGets` | src/asset_archive.c:444-456 | the next line or piece, NUL-terminated, or NULL with the handle as it was |
| `SliceHandle.LineEndIff` | src/asset_archive.c:447-452 | where a piece ends: at the first newline, the limit or the end of the data |
| `SliceHandle.DivisionIsPieces` | src/asset_archive.c:447-452 | there is only one division into non-empty pieces of at most max - 1 bytes ended by newline, length or end of data |
| `SliceHandle.GetsPartition` | src/asset_archive.c:444-456 | repeated calls deliver that division and then NULL, in at most one call more than bytes |
| `ElfImage.Loader.Scan` | src/so_util.c:116-131 | the end of the image, the last executable segment, and the globals of the last TLS header, which stay as they were without one |
| `ElfImage.Loader.Load` | src/so_util.c:116-148 | load_size is the least page multiple that covers every segment, each byte of the image is the file byte of the last PT_LOAD segment with it among its filesz bytes, or 0, and the buffer beyond is untouched |
| `ElfImage.ImageSize` | src/so_util.c:116-133 | the rounded maximum is that least multiple, and fits the buffer |
| `ElfImage.ImageHoldsFile` | src/so_util.c:135-143 | with disjoint segments, byte x of every PT_LOAD segment with x below filesz stands at vaddr + x |
| `LinkTables.SameTablesSameRecs` | src/so_util.c:186-195 | memory that agrees on the tables holds the same relocation records |
| `TableFormat.TablesRoundTrip` | src/so_util.c:186-195 | where image or file hold Elf64_Rela and Elf64_Sym records written field by field, and names with their NUL, exactly those records are read, in the order of sections and within each |
| `Relocation.AppliedKeeps` | src/so_util.c:193-218 | a pass changes no byte outside the targets |
| `Relocation.AppliedReads` | src/so_util.c:186-195 | in the middle of a pass, which patches the image its tables are in, every record still reads as before |
| `Relocation.Relocate` | src/so_util.c:182-224 | the first pass stores, in order, what each record calls for, each read from memory as it then is; for any module whose accesses stay in bounds (`LinkServes` says what that comes to) |
| `Relocation.Resolve` | src/so_util.c:226-288 | so does the second pass |
| `Relocation.LinkableOutcome` | src/so_util.c:186-195 | if no target overlaps a table a pass stays in bounds, and its effect follows from the records as they were before it |
| `Relocation.FindImport` | src/so_util.c:251-262 | the table, then up to three dlsym scopes; a zero address falls through |
| `Linking.TwoPasses` | src/so_util.c:197-218 | the second pass stores where the first did not, or the same again |
| `Linking.LinkComputes` | src/so_util.c:182-288 | with disjoint targets both passes leave every record's final value at its target and every other byte unchanged |
| `LinkedWords.LinkServes` | src/so_util.c:182-288 | in the image linked from written tables every record has its word at its offset: base + A for kind 8, base + S + A for 1, 6 and 7 of a defined symbol, the address found plus A for an import, 1 for 16, S + A for 17, S + A - tls_total_size for 18 and, in 4 bytes, 23 |
| `LinkedWords.LinkSpares` | src/so_util.c:182-288 | and no byte outside those words has changed |
| `LinkedWords.ThreadLocalPlace` | src/so_util.c:206-211 | thread pointer plus the word of a TPOFF64 or TPOFF32 record is start of the thread's block plus S plus A |
| `Linking.LinkKeeps` | src/so_util.c:182-288 | even with overlapping targets nothing outside them changes |
| `Linking.OrderIndependent` | src/so_util.c:184-192 | the image does not depend on the order of records or sections |
| `Linking.LinkIdempotent` | src/so_util.c:182-288 | running both passes again changes nothing, even with overlapping targets |
| `Linking.PositionIndependent` | src/so_util.c:197-218 | loaded at two bases, words at RELATIVE and defined-symbol targets differ by exactly the difference of the bases modulo 2^64, and all other bytes are equal |
| `Linking.AgreesWithPsAbiIff` | src/so_util.c:197-205 | the stored word is that of section 4.4.1 of the System V AMD64 psABI exactly when: for a symbol at its usual place or an import that is found, a GLOB_DAT or JUMP_SLOT addend is 0; for an absolute symbol, load base and such an addend cancel; for an indirect function, its resolver returns the word; for an import that is not found, the word stored in its stead is the addend of a 64 record, or 0 |
| `Linking.Link` | src/main.c:100-101 | relocating and resolving in place yields that image |
| `SymbolTable.Snapshot` | src/so_util.c:352-384 | the table holds exactly the defined, named, global or weak symbols with a value, in order, and the first pass counts them |
| `SymbolTable.Combine` | src/main.c:181-188 | shims first, then the library's exports |
| `SymbolTable.ImportOrder` | src/so_util.c:253-262 | an import goes to its shim if there is one with an address, else to the first export of that name whose index, value and name are not 0 and whose binding is 1 or 2, else to the first of the program, libc and libpthread that finds it, also for a shim with address 0 |
| `ImportOverride.OverrideImports` | src/so_util.c:290-324 | image and real_out cells after one call |
| `ImportOverride.CallsRedirect` | src/so_util.c:303-319 | after any number of calls, at least one, the slot of every record of kind 1, 6 or 7 whose symbol is undefined holds, as 8 bytes, the function of the first override of its name plus addend, and no byte in no such slot has changed |
| `ImportOverride.CellHoldsOriginal` | src/so_util.c:314-316 | a real_out cell that began at 0 holds what its import was resolved to before the first call, never the hook in the slot |
| `ImportOverride.CellHoldsOriginalIff` | src/so_util.c:314-316 | from the second call on that is so if and only if the import had been resolved to something |
| `CodePatch.PageRangeSmallest` | src/so_util.c:59-64 | the pages made writable cover the patch, and every page range that covers it contains them |
| `CodePatch.Text.Hook` | src/so_util.c:57-83 | 5 or 14 bytes become a jump and no other byte changes; every store is to a page made writable, and those pages end up not writable |
| `CodePatch.JumpDecodes` | src/so_util.c:62-79 | the bytes decode as one jump to the destination, for all addresses in range |
| `CodePatch.JumpIs` | src/so_util.c:62-79 | the bytes are E9 and the distance from addr + 5 if that is within 2^31 as 64-bit addresses, else FF 25, a zero displacement and the destination: 5 or 14 bytes |
| `CodePatch.InstalledKeeps` | src/so_util.c:57-83 | after any installs only the 5 bytes at the address of a close one, or the 14 of any other, can have changed |
| `CodePatch.HooksReach` | src/so_util.c:57-83 | after any installs with disjoint windows or shared addresses, one jump from each hooked address reaches its latest destination |
| `Detour.TrampolineRuns` | src/shadows.c:71-78 | running the trampoline is running the original prologue and going on at fn + 20 |
| `Detour.StepSimulates` | src/shadows.c:65-94 | every step of the original program is matched by finitely many of the detoured one |
| `Detour.DetourSimulates` | src/shadows.c:65-107 | over every run that keeps off the detour's own places, also through fn from within fn, the detoured program reaches each configuration with the same registers and memory and the same return stack but for hook frames |
| `Detour.HaltsToo` | src/shadows.c:65-107 | where the original returns from its outermost call, so does the detoured program |
| `Detour.DetourInstall` | src/shadows.c:65-94 | the text and the trampoline become those of the detoured program, byte for byte, and the pages of the 20 bytes end up not writable; or a call failed and the function is as it was |
| `Gamepad.Pump.ConnectPad` | src/jni_shim.c:95-102 | only a controller is opened, and only when there is none; then the pump is reset |
| `Gamepad.Pump.DisconnectPad` | src/jni_shim.c:104-111 | only the open controller's own instance closes it |
| `Gamepad.Pump.PumpOnce` | src/jni_shim.c:113-162 | state and callbacks after one poll; a missing entry point ends the process with nothing sent |
| `Gamepad.ExitBeforeButtons` | src/jni_shim.c:62-67 | a poll ends the process exactly when back and start are held or an entry point is missing at the first poll, and before any button or axis is sent |
| `Gamepad.InstanceIff` | src/jni_shim.c:95-111 | while the process runs, a controller is open exactly when it was opened while none was and has not been unplugged since: a second one and the unplugging of another are ignored |
| `Gamepad.StepInv` | src/jni_shim.c:89-162 | every connect, poll and disconnect keeps log and remembered state in step |
| `Gamepad.RunHasCallbacks` | src/jni_shim.c:115-124 | in every run an initialised pump has all four entry points |
| `Gamepad.RunReports` | src/jni_shim.c:113-162 | in every run, after each poll that the process survives: replaying this connection's button events gives, id by id, the polled state of all 14 buttons and both triggers, downs and ups alternate, the count came once and first, and each reported axis is within 0.02 of the polled one over 32768, or of 0 in its dead zone |
| `Gamepad.QuietIff` | src/jni_shim.c:127-161 | a poll sends nothing exactly when the game knows the reading already |

## Left out

- Sequentially consistent memory is assumed: the unlocked first read of a slot is an atomic access here.
- `b_pthread_create`, attribute calls, rwlock init and destroy, and the clock of condition variables.
- Raw memory above 0x10000 that is used without b_mutex_init or b_cond_init, rwlocks included: callers must not do that. After destroy has freed what is no object nothing is modelled.
- Calls that race with init or destroy of the same object: callers must not do that, and the model's threads do not.
- Allocation failure in the archive and the bridge; `mprotect` failure in `hook_x64`.
- `qsort` and `bsearch` are glibc's; an insertion sort and a binary search stand for them.
- Loose files and `asset_open`'s order of trying them; `asset_close`; the handle's magic number; `asset_size`.
- ImgPacks.ImgComposes: an entry whose image bytes begin with the zip signature is excluded, because the source would take it for a local file header and skip it.
- SliceHandle.AssetRead: size * nmemb stays below 2^63, as it must for a buffer in memory; `SliceHandle.AssetSeek`: the sum of position and offset does not overflow.
- The early exits of two loops (`load_zip_index_file`, `asset_gets`) are flags of the loop condition.
- The layout of ELF file, program and section headers: they are given as values. `__register_frame`, the module list and cache flushes.
- ElfImage.Loader.Load: the buffer holds every segment and is a whole number of pages, and some segment is executable; the source checks none of this and ignores `max_size`.
- Linking.LinkComputes: targets do not overlap the relocation, symbol and string tables. A module whose passes leave those or the image is undefined in the source and not modelled.
- Linking.AgreesWithPsAbiIff: only the RELATIVE, 64, GLOB_DAT and JUMP_SLOT kinds.
- LinkedWords.ThreadLocalPlace: that a thread's block ends at its thread pointer is the x86-64 layout; allocating the block is not part of this model.
- BridgeAnswers.CallAnswers: unlocking a rwlock that one does not hold is undefined, and has no outcome here.
- `dlsym` is a fixed map from names to addresses per scope; counters and messages are not modelled. Sums of a load base and a symbol value stay below 2^64.
- `so_find_addr`, `so_execute_init_array` and the text permissions: thin.
- CodePatch.Text.Hook: the 64-bit subtraction of line 62 does not overflow; a store is a list of byte stores.
- Detour.DetourSimulates: return addresses are kept on a stack of their own, so arguments passed on the stack are not modelled; the hook's logging is not either.
- Gamepad.RunReports: axis values are exact numbers, not floats.
- JNI tables, EGL, SDL set-up, C library shims, threads of the game and the shadow settings.
