# Heap analysis of a glibc core dump, modelled and proved in Dafny

The program reads a core dump of a glibc process and reports, arena by arena, how many chunks and bytes of the
heap are allocated and how many are free. This project models that analysis on 64-bit targets, from the notes of
the core and the memory it maps to the report, and proves what the report means.

Memory is any partial map from 64-bit addresses to words (and to segments), as damaged or as cyclic as it likes;
the malloc layout, the load address of libc and the parsed threads are inputs. `U64`, `U32` and `I32` are bounded
integers, and checked, wrapping and saturating arithmetic are different functions, used where the program uses
each. Loops that update state are methods with loops; `SizeTally`, which the program updates in place, is a class.
Each method is proved against a specification function, and the theorems are about those functions. Run
`dafny verify dfyconfig.toml` to check everything.

| file | content |
|---|---|
| `Words.dfy`, `Memory.dfy`, `Bytes.dfy`, `Sums.dfy` | machine arithmetic and bit masks; memory, layout and size fields; byte buffers; sums over sequences |
| `Orbit.dfy` | following a deterministic chain under a visited set and a cap: proved once, used for fastbins, tcache bins, arenas, heaps and DWARF references |
| `FreeLists.dfy`, `Arenas.dfy`, `HeapList.dfy` | the four traversals of linked structures |
| `ChunkWalk.dfy`, `WalkRoundTrip.dfy` | the chunk walk: what it decides, tiling, damage locality, round trips |
| `Stats.dfy`, `Accounting.dfy`, `Report.dfy` | totals, their closed form, conservation, histograms |
| `Tls.dfy`, `Attachment.dfy` | who owns a cached chunk; which arena a thread is listed under |
| `Pipeline.dfy`, `Promises.dfy` | the composed analysis, and what a silent one guarantees |
| `Findings.dfy`, `Problems.dfy`, `Silence.dfy` | for any memory: what every arena's report is, which problems are reported, and when none is |
| `AbstractHeap.dfy`, `ProcessHeaps.dfy`, `ProcessWalk.dfy`, `ProcessTls.dfy`, `ProcessBooks.dfy`, `EndToEnd.dfy` | an abstract heap over several arenas, memory holding it in words, and the end-to-end theorem stage by stage |
| `Encoding.dfy`, `TwoArenas.dfy`, `Clamped.dfy` | the encoder; a process with two arenas; a memory whose totals do not add up |
| `Dwarf.dfy`, `DwarfAssembly.dfy`, `DwarfRefs.dfy` | validation and selection of DWARF layouts; which offset each name stands for; chasing type references |
| `Notes.dfy`, `Utf8.dfy`, `CoreDump.dfy`, `Mappings.dfy` | ELF notes and their names, threads and their registers, file mappings |

## Main results

- **End to end** (`EndToEnd.EndToEnd`, `Encoding.EncodeThenAnalyze`): take any chunks that do not overlap, in any
  number of arenas, each with its heaps; each chunk live, free, in a fastbin of its arena or in some thread's tcache
  bin. Put them in memory with their flags, their plain or safe-linked chains, bridges and headers. The analysis
  reports no problem, and for every arena exactly the simple count over its chunks.
- **Any memory** (`Findings.ReportsShown`, `Problems.ReportsExactly`, `Silence.SilentExactly`): however damaged, the
  report of each arena and the problems are those that its words give, and there is no problem if and only if every
  part is sound.
- **Conservation** (`Accounting.BytesAreConserved`, `Promises.SilentAnalysisAddsUp`): whatever memory holds, if
  nothing is reported, payload and header bytes make up the main region to the byte, with no assumption on overflow.
- **Exact decisions**: the walk, the free-list walks, the arena ring, the `prev` chain, DWARF acceptance, assembly,
  selection and reference chasing each succeed if and only if a stated condition on words or members holds.

## Where code and documentation differ

- The report's documentation says that `allocated.count + free.count == overhead.count` always holds
  (README.md:205-208). Totals are clamped, so it fails when fastbins claim more chunks than are allocated:
  `Clamped.ReportNeedNotAddUp` is a memory whose report breaks it, `Accounting.CountsAddUpExactly` says exactly when
  it holds, and `Accounting.BytesAddUpExactly` does the same for bytes.
- The walk's comment says that a damaged chunk does not cost the chunks before it (src/heap/walk.rs:48-49). That is
  so in the main arena, and in any heap that was sound (`ChunkWalk.SoundHeapsAreLocal`). In a secondary heap that is
  already damaged, the sentinel test on an unflagged chunk may look at the last word of the region, and more damage
  there can drop the chunk: `ChunkWalk.DamageCanCostAChunk` is an instance, and `ChunkWalk.DamageIsLocal` says exactly
  when it can.
- `stats_inconsistent` is documented as a size whose fastbin count exceeded its allocated count (README.md:233). All
  such sizes are reported (`Accounting.OverclaimedSizesAreReported`), but once one has drawn the total count down, a
  size whose own bucket suffices may be reported too: `Accounting.SufficientSizeReported` is an instance, and
  `Accounting.ReportsOverdrawn` says exactly which fastbins are.
- Truncated mappings are documented to give whatever parsed cleanly (src/elf/coredump.rs:84-85). After a cut inside
  the range table the rest of the table is read as paths: `Mappings.TwoPagesMislead` is an instance, and
  `Mappings.TruncationExactly` says, for every descriptor and every cut, exactly when the result is a prefix.

## Model

| member | source | states |
|---|---|---|
| EndToEnd.EndToEnd | src/analyze.rs:103-160 | memory that represents an abstract heap over any number of arenas is analysed without a problem, into one report per arena equal to the simple count over its chunks: live ones allocated, all others free, histograms, fastbins, tcache bins and their threads, header overhead and heap sizes |
| Encoding.EncodeThenAnalyze | src/analyze.rs:103-160 | the same for every well-formed abstract heap written by the encoder into memory that surrounds it: encode, analyse, and the count comes back |
| Encoding.EncodeRepresents | src/heap/chunk.rs:16-25 | the encoder's memory holds the heap: size fields with PREV_INUSE of the chunk before and NON_MAIN_ARENA outside the main arena, chains, and all the rest had |
| Encoding.EncodesChunk | src/heap/walk.rs:101-103 | every encoded size field reads back as its chunk's size, and the size field after it as its in-use bit |
| Encoding.EncodesChain | src/heap/fastbin.rs:93-101 | every encoded fastbin or tcache chain is stored node by node, each link protected by its place |
| TwoArenas.SecondArenaReportsTheTcache | src/analyze.rs:149-159 | an instance: a second arena whose one chunk heads thread 2's tcache bin reports 0 allocated, 1 free, that bin and that thread, and nothing amiss |
| EndToEnd.ShareIsWalked | src/analyze.rs:112-144 | of each arena, main or secondary, the heaps are listed silently and their walks give exactly the arena's chunks, silently |
| EndToEnd.ShareReported | src/analyze.rs:112-159 | each arena's report is the simple count over its chunks |
| EndToEnd.StatsFill | src/report/model.rs:119-141 | when the stages before it are silent, an arena's report and problems are those of its statistics, field by field |
| ProcessHeaps.ListsArenas | src/heap/arena.rs:45-114 | the arenas of a process are listed, in ring order, with no problem |
| ProcessHeaps.ListsMain | src/heap/heap_list.rs:63-132 | the main arena's one heap, or none, is listed with its sizes and region |
| ProcessHeaps.ListsSecondary | src/heap/heap_list.rs:134-227 | the heaps of a secondary arena are listed from the newest on, each with its sizes and region, past heap_info, embedded malloc_state and padding |
| ProcessWalk.SecondaryIsWalked | src/analyze.rs:130-144 | walking the heaps of a secondary arena one after another gives its chunks, whatever their flags, without the bridges and with no problem |
| ProcessWalk.MainIsWalked | src/analyze.rs:130-144 | walking the main heap gives its chunks, with no problem |
| ProcessTls.ResolvesOwners | src/analyze.rs:181-249 | resolving the threads gives each cached chunk of any arena its own (thread, bin), gives no other chunk an owner, and reports nothing |
| ProcessBooks.WalksFastbins | src/analyze.rs:295-325 | walking an arena's fastbins finds each chain at its length and payload size, with no problem |
| ProcessBooks.EventSums | src/heap/stats.rs:106-121 | in every measure, the walked allocated chunks are the live ones and those in fastbins, the free ones are the rest |
| ProcessBooks.AllMovedSums | src/heap/stats.rs:123-143 | what an arena's fastbins move, in every measure, is exactly its chunks of fastbin fate |
| ProcessBooks.HeapBooksBalance | src/heap/stats.rs:91-177 | for the chunks of an arena the books balance: no inconsistency, and allocated and free are the live and other shares in every measure |
| ProcessBooks.SizesFit | src/heap/stats.rs:48-53 | chunks that do not overlap have sizes that add up to at most 2^64, so no total of theirs is clamped |
| ProcessBooks.SummaryTells | src/report/model.rs:203-230 | a balanced tally is reported as the share it stands for, with one ascending bucket for each size that occurs |
| ProcessBooks.CachedReported | src/heap/stats.rs:145-159 | the reported tcache bins are the non-empty ones, ascending, each with the number of chunks cached in it over all threads, its payload size and their product |
| ProcessBooks.StatsReport | src/heap/stats.rs:91-177 | the statistics over an arena's chunks are the simple count |
| Silence.SilentExactly | src/analyze.rs:103-160 | for any memory, the analysis succeeds without a problem if and only if: every thread's TLS can be read and its tcache chains end, and no address is on two of them; the ring of arenas closes within 1023; and of every arena the heaps are listed silently, the regions are tiled, the fastbins' heads are readable and chains end, and they claim no more of any size than is allocated |
| Silence.TlsIsSilent | src/analyze.rs:181-293 | resolving the threads is silent if and only if each thread and bin is sound and no address is claimed twice |
| Problems.ReportsExactly | src/analyze.rs:103-160 | for any memory, a finished analysis reports a problem if and only if it is one of the ring's, one of a thread's, or one of some arena's heaps, chunks, fastbins or totals: no stage's problems are lost and none is made up |
| Problems.TlsReportsExactly | src/analyze.rs:181-293 | the TLS problems are exactly: a failed resolution for a null thread pointer or an unreadable variable, a failed read or a cycle of a bin's chain, under its own thread, bin and address, and a duplicate for each claim on an owned address |
| Findings.ReportsShown | src/analyze.rs:112-159 | for any memory and every arena, main or secondary: the report is what the walks of its heaps and the chains of its fastbins give, in every measure and bin, with the chunks cached that some tcache chain holds, under the first thread and bin to hold them; an arena that cannot be listed reports nothing |
| Pipeline.AnalyzeCore | src/analyze.rs:103-160 | the composed run equals the composition of the stages' specifications, problems in order, an error of the main arena ending it |
| Pipeline.AnalyzeOneArena | src/analyze.rs:112-159 | one arena: heaps, chunks of all heaps, fastbins, totals; a secondary arena that cannot start becomes a stub with one problem |
| Pipeline.WalkArenaFastbins | src/analyze.rs:295-325 | every fastbin is walked once, and an unreadable head is reported and left out |
| Pipeline.ChunksBounded | src/heap/walk.rs:90-99 | however memory looks, an arena has at most the chunk cap times its number of heaps of events |
| Pipeline.HeapsBounded | src/heap/heap_list.rs:50-61 | no arena lists more than 10,000 heaps |
| Pipeline.ErrorStops | src/analyze.rs:120 | an error in one arena is the outcome whatever arenas follow |
| Promises.SilentAnalysisAddsUp | README.md:205-208 | for any memory, an analysis without problems has one report per arena, indexed in order; in each allocated and free are all chunks, and payload and headers are all bytes of its heaps up to their ends or bridges, whenever these fit 64 bits; in the main arena they are all bytes of the region |
| Promises.SilentArena | README.md:205-208 | the same for one arena |
| Promises.SilentCounts | README.md:205-208 | without a reported inconsistency, allocated and free make up all events, whatever their sizes |
| ChunkWalk.WalkRegion | src/heap/walk.rs:51-181 | the loop computes the specified walk, and terminates because each step moves on, not because of the cap |
| ChunkWalk.WalkDecides | src/heap/walk.rs:65-181 | no problem is reported if and only if the region is empty or tiled by sound chunks (up to the bridge of a non-main heap) within the cap, and then the events are exactly that tiling; at most one problem is reported |
| ChunkWalk.ScanStep | src/heap/walk.rs:91-178 | an event is emitted exactly at a sound chunk that is no bridge, and every other stop but the end and a bridge is one problem |
| ChunkWalk.WalkStops | src/heap/walk.rs:65-169 | where any walk stops is explained by the words there: each problem, with its reason or address, is reported in its own case only |
| ChunkWalk.EventsTile | src/heap/walk.rs:91-178 | for any memory the events start at the region's start, are contiguous, of at least 16 bytes, inside the region; when nothing is reported they reach its end or a bridge |
| ChunkWalk.UserAddressesIncrease | src/heap/walk.rs:171-177 | user addresses of events strictly increase |
| ChunkWalk.ScanEmitsCuts | src/heap/walk.rs:91-178 | every scan, silent or not, emits the events of some sequence of sound chunk boundaries |
| ChunkWalk.ScanTakesTiling | src/heap/walk.rs:91-178 | a tiling within the cap is exactly what the scan follows |
| ChunkWalk.DamageIsLocal | src/heap/walk.rs:48-49 | damage beyond the size field after the first k events leaves them unchanged, whatever it is, if and only if no sentinel test on them looks past that field, which in the main arena none does |
| ChunkWalk.ScanDamageIsLocal | src/heap/walk.rs:91-178 | memories that agree up to a limit that no event looks past give the same events up to it |
| ChunkWalk.ScanSeesDamage | src/heap/walk.rs:155-169 | an event whose sentinel test looks past the limit is lost when the last word of the region becomes a bare PREV_INUSE |
| ChunkWalk.SoundHeapsAreLocal | src/heap/walk.rs:48-49 | in a heap of any arena that walks silently, damage beyond the size field after the first k events leaves them unchanged |
| ChunkWalk.DamageCanCostAChunk | src/heap/walk.rs:155-169 | an instance where it is not local: in a secondary heap already damaged, a changed last word costs the two chunks before it |
| WalkRoundTrip.RegionRoundTrip | src/heap/walk.rs:91-178 | any valid list of size fields, with any flags, laid out as a main region or the last heap of a secondary arena, is walked back exactly, each in-use flag from its successor and no problem, if and only if it has at most 10,000,000 chunks |
| WalkRoundTrip.BridgedHeapRoundTrip | src/heap/walk.rs:155-169 | an intermediate heap of chunks with any flags, closed by an unflagged bridge and a bare PREV_INUSE word, is walked back without the bridge and without a problem if and only if chunks and bridge are within the cap and the word after the bridge has a size or the last chunk is flagged (else that chunk is itself taken for the bridge) |
| ChunkBits.SizeMask | src/heap/chunk.rs:20-25 | the modelled chunk size is the raw field under the mask that clears three bits |
| ChunkBits.FlagMasks | src/heap/chunk.rs:16-18 | the modelled flag tests are the bit tests with PREV_INUSE and NON_MAIN_ARENA |
| ChunkBits.FlagsReadBack | src/heap/chunk.rs:16-25 | a size and three flags put into a word read back as they were |
| Stats.SizeTally.constructor | src/heap/stats.rs:35-41 | a new tally is empty |
| Stats.SizeTally.AddN | src/heap/stats.rs:48-53 | count, bytes and the bucket of the size, and no other bucket, grow by n chunks of that size, clamped at 2^64 - 1 |
| Stats.SizeTally.RemoveN | src/heap/stats.rs:57-64 | count, bytes and the bucket, and no other bucket, shrink by n chunks of that size, clamped at zero, and the result tells whether count or bucket was too small |
| Stats.Accumulate | src/heap/stats.rs:91-177 | the three-source accounting computes the specified statistics and problems |
| Accounting.ClosedForm | src/heap/stats.rs:48-64 | with no assumption on sizes, in count, bytes and every bucket: allocated is the walked sum (clamped at 64 bits) less the fastbins' sum, not below zero, and free is the walked sum plus the fastbins', clamped |
| Accounting.InconsistencyExactly | src/heap/stats.rs:123-143 | an inconsistency is reported if and only if for some size the fastbins together claim more chunks than are in use and not cached |
| Accounting.SilentMeansExact | src/heap/stats.rs:91-177 | when nothing is reported, counts and buckets are plain sums and differences and histograms add up to the counts, with no assumption; the bytes of each total are so, and agree with its histogram, if and only if they fit 64 bits (for allocated: or all of them are moved) |
| Accounting.SilentBytesAddUpExactly | src/heap/stats.rs:48-64 | when nothing is reported, allocated and free bytes make up all payload bytes if and only if neither total is clamped |
| Accounting.SilentHistograms | src/heap/stats.rs:91-177 | when nothing is reported, the histograms weigh, in every measure, what was walked less or plus what the fastbins claim, and they claim no more than is allocated |
| Accounting.BytesAreConserved | src/heap/stats.rs:161-163 | for any memory, a silent main walk and silent accounting give allocated + free + overhead bytes equal to the region's length, and counts that add up |
| Accounting.CountsAddUpExactly | README.md:205-208 | the documented sum of counts holds if and only if the fastbins claim no more chunks than are allocated (or 2^64 - 1 chunks were walked) |
| Accounting.CountsNeedNotAddUp | README.md:205-208 | where it fails: one chunk in use and a fastbin that claims more of its size or any other; nothing is allocated, the claim is free, one chunk was walked, and the inconsistency is reported |
| Clamped.ReportNeedNotAddUp | README.md:205-208 | a memory for which it fails: the only chunk heads a fastbin whose link leads on to a second node outside the heap, and the whole analysis reports 0 allocated and 2 free of 1 |
| Accounting.BytesAddUpExactly | src/heap/stats.rs:57-64 | after any silent main walk, bytes add up to the region if and only if the fastbins claim no more bytes than are allocated |
| Accounting.ReportsOverdrawn | src/heap/stats.rs:125-135 | exactly those fastbins are reported, in order, with which the bins so far claim more than is allocated, of their size or altogether |
| Accounting.OverclaimedSizesAreReported | README.md:233 | every size of which the fastbins claim more than is allocated is reported |
| Accounting.SufficientSizeReported | README.md:233 | an instance where a size whose bucket suffices is reported too, after another was overdrawn |
| Accounting.OrderDoesNotMatter | src/heap/stats.rs:106-143 | permuting events and fastbin results changes no total, no bucket and not whether anything is reported |
| Accounting.PayloadOfRegion | src/heap/walk.rs:171-177 | payloads and header words of contiguous events make up the distance they cover |
| Accounting.SilentMove | src/heap/stats.rs:123-143 | moving fastbin chunks is silent if and only if every bucket suffices, and then the histogram still adds up to the count |
| Accounting.MovedHistogram | src/heap/stats.rs:123-143 | a silent move takes what the fastbins claim from one histogram and adds it to the other, in every measure |
| Accounting.PostedCounted | src/heap/stats.rs:106-121 | posting events keeps both histograms adding up to the counts, and to the bytes if and only if these fit 64 bits |
| Report.FromHeaps | src/report/model.rs:180-192 | sizes and committed sizes of all heaps are summed, clamped once at 64 bits |
| Report.BucketsList | src/report/model.rs:203-213 | the buckets are exactly the non-empty sizes, strictly ascending |
| Report.BucketsExtensional | src/report/model.rs:203-213 | buckets emptied by a removal leave no trace: histograms with equal counts give equal buckets |
| Report.BucketsAddUp | src/report/model.rs:203-213 | reported buckets sum to the histogram's count, and bytes when these fit 64 bits |
| Report.TcacheBinsList | src/heap/stats.rs:145-159 | tcache bins are listed once each, ascending, and sum to all cached chunks |
| Report.CachedCounts | src/heap/stats.rs:106-121 | each bin's count is the number of in-use events that the bin owns |
| Report.ReportedTotalsAgree | README.md:205-208 | when nothing is reported: histograms are well formed, counts sum to the totals and to all events, free is fastbin plus tcache plus cleared chunks, and the bytes of each histogram sum to its total whenever they fit 64 bits |
| Report.EvenWhenInconsistent | src/heap/stats.rs:57-64 | even on inconsistency the allocated count does not exceed its histogram, nor the overhead count the sum of counts |
| Orbit.StoppingPathIsDistinct | src/heap/fastbin.rs:58-89 | the orbit lemma: a deterministic chain that stops never visits a node twice |
| Orbit.FollowDecides | src/heap/tcache.rs:105-135 | following ends, or breaks off, if and only if some path within the cap does; what was visited is a repetition-free path |
| Orbit.CappedExactly | src/heap/fastbin.rs:58-71 | the cap is hit if and only if that many first nodes are distinct and all lead on |
| Orbit.LoopingPathNeverStops | src/heap/arena.rs:88-96 | once a chain links back to itself, no path from its head stops |
| FreeLists.WalkFastbin | src/heap/fastbin.rs:41-91 | count and problems are those of following the revealed links |
| FreeLists.WalkTcacheBin | src/heap/tcache.rs:88-137 | entries, in order, and problems are those of following the revealed links |
| FreeLists.FreeListWalksDecide | src/heap/fastbin.rs:41-91 | both walks, in words of memory: silent if and only if the stored links lead from the head to null in at most 10,000 nodes, and then these are what is found; a failed read is reported at a slot if and only if they run into that slot; a cycle otherwise. What is found is always a repetition-free part of the chain, under the bin's index and payload size |
| FreeLists.StoredChainIsFollowed | src/heap/fastbin.rs:58-89 | any chain stored in words, safe-linked or plain, is recovered node by node if and only if it has at most 10,000 nodes |
| FreeLists.TrailDecides | src/heap/tcache.rs:105-135 | ending, and running into an unreadable slot, are decided by the words alone |
| FreeLists.BinOfSize | src/heap/fastbin.rs:28-32 | a chunk size s, a multiple of 16 from 32 on, belongs to bin s / 16 - 2 and to no other, by its payload size s - 8 |
| FreeLists.RevealInvertsProtect | src/heap/fastbin.rs:93-101 | revealing at a location undoes protecting at that location, and the other way round |
| FreeLists.XorKey | src/heap/fastbin.rs:97 | a 64-bit result that the same key turns back into the word |
| Bits.XorInvolution | src/heap/fastbin.rs:97 | xor with the same key twice is the identity, for all numbers |
| Tls.CollectTcache | src/analyze.rs:252-293 | all bins of one thread: unreadable heads and walk problems reported, first owner kept, repeats reported |
| Tls.ResolveTls | src/analyze.rs:181-249 | every thread once, in order: arena binding, tcache, and a resolution failure when the thread pointer is null or a read fails |
| TcacheOwnership.TcacheOwners | src/analyze.rs:252-293 | the map's addresses are those on the walked chains, each owned by the first (thread, bin) whose chain holds it; map size plus duplicates reported is the total chain length |
| TcacheOwnership.DuplicatesNameOthers | src/analyze.rs:279-290 | with distinct thread ids, a reported duplicate is owned by another (thread, bin) |
| TcacheOwnership.AllClaimsDistinct | src/heap/tcache.rs:108-116 | with distinct thread ids no (thread, bin) claims an address twice |
| Attachment.AttachedExactly | src/analyze.rs:327-334 | with distinct thread ids, a thread is listed under an arena if and only if its TLS is readable and names that arena, null naming the main one; no id is listed twice |
| Attachment.ThreadsReportedWhereTheyBelong | src/analyze.rs:112-159 | for any memory and distinct thread ids: in each arena's report, stub or not, a thread is listed if and only if its own TLS names that arena |
| Attachment.ThreadMapExactly | src/analyze.rs:210-220 | the thread map holds exactly what each thread's own TLS names |
| Attachment.AttachedInOrder | src/analyze.rs:328-334 | threads are listed under an arena in the order of their notes |
| Attachment.ListedUnderOneArena | src/analyze.rs:112-113 | for any memory, no thread is listed under two arenas |
| Arenas.List | src/heap/arena.rs:45-114 | the loop computes the specified ring listing |
| Arenas.ArenaRing | src/heap/arena.rs:52-113 | in words of memory: arenas start with the main one, have distinct addresses and indices 0 to n - 1, each is the `next` word of the one before, n is at most 1024; the listing fails only when the main `top` is unreadable, stops where the last `next` word says, with that case's problem, and reports nothing if and only if the words lead back to main or null within 1023 arenas |
| Arenas.RingPathIsListed | src/heap/arena.rs:66-113 | a ring that leads back within the limit is listed whole, and silently |
| Arenas.MidChainCycleIsReported | src/heap/arena.rs:88-96 | `next` words that lead back to any arena but the main one are always reported |
| HeapList.MainRegion | src/heap/heap_list.rs:63-132 | for any memory: whether the main arena has a region, where it starts and ends, its sizes, that only zero words are skipped, and the one problem reported, with its reason |
| HeapList.MainCannotStart | src/heap/heap_list.rs:72-81 | listing the main heap fails exactly when `sbrk_base` or `top` cannot be read, at that slot |
| HeapList.SecondaryHeaps | src/heap/heap_list.rs:134-227 | in words of memory: heaps start with the block holding top and follow the `prev` words without repetition, at most 10,000; each has the size and committed size of its heap_info, a region that ends at its address plus its size (at top plus a word for the first), and starts past its header and padding; the last `prev` word says why the list ends and what is reported; nothing is if and only if the words lead to a null `prev` within the limit |
| HeapList.SecondaryCannotStart | src/heap/heap_list.rs:140-147 | an unreadable top, or first heap_info, is an error, and a null top an empty list |
| HeapList.InfoIsWords | src/heap/heap_list.rs:235-242 | a heap_info is read as the three words at its offsets |
| HeapList.ListSecondaryHeaps | src/heap/heap_list.rs:134-227 | the method computes the specified listing; an unreadable top or first header is an error |
| HeapList.WalkPrevChain | src/heap/heap_list.rs:151-226 | the loop over prev links computes the specified heaps and problems |
| HeapList.MallocStateSkippedOnlyInOldest | src/heap/heap_list.rs:205-211 | the embedded malloc_state is skipped in the heap whose `prev` word is 0, the last one listed, and in no other |
| HeapList.HeapStartIsBlock | src/heap/heap_list.rs:246-248 | for a power of two the mask gives the start of the aligned block, address minus remainder |
| HeapList.SkipPadding | src/heap/heap_list.rs:253-261 | the loop computes the specified skip |
| HeapList.SkipsExactlyZeroWords | src/heap/heap_list.rs:250-261 | only readable zero words are skipped, and the scan stops at the first word that is not one |
| Dwarf.Select | src/glibc/dwarf.rs:760-796 | the loop over candidates computes the specified selection, with the first error when none validates |
| DwarfGeometry.SelectsTheOnlyLayout | src/glibc/dwarf.rs:760-796 | a layout is selected if and only if it is the one distinct layout that candidates validate to |
| DwarfGeometry.SelectionFails | src/glibc/dwarf.rs:767-796 | otherwise: the recorded error without candidates, the first candidate's error when none is valid, ambiguity when two layouts are |
| DwarfGeometry.SelectionDependsOnSet | src/glibc/dwarf.rs:760-796 | success and layout depend only on the set of valid layouts |
| DwarfGeometry.OnlyValidCandidatesMatter | src/glibc/dwarf.rs:760-796 | permuting, repeating or adding invalid candidates changes neither success nor layout |
| DwarfGeometry.MallocStateAcceptedExactly | src/glibc/dwarf.rs:807-828 | malloc_state is accepted if and only if fastbinsY, top and next are the sole members of their names, of the right kind and size, in range, and lie apart |
| DwarfGeometry.HeapInfoAcceptedExactly | src/glibc/dwarf.rs:861-881 | heap_info is accepted if and only if its four words are sole, of the right kind, aligned, in range, and lie apart |
| DwarfGeometry.TcacheAcceptedExactly | src/glibc/dwarf.rs:889-907 | the tcache structure is accepted if and only if counts and entries are sole arrays of equal length up to 1024, of allowed element kinds and widths, in range, and lie apart |
| DwarfGeometry.RequiredIsSole | src/glibc/dwarf.rs:909-924 | a required member is found if and only if exactly one member has the name |
| DwarfGeometry.ArrayShapeExactly | src/glibc/dwarf.rs:994-1021 | an array's width and count are given if and only if its declared size is their product, non-zero, bounded, and inside the structure |
| DwarfAssembly.AssembledExactly | src/glibc/dwarf.rs:699-758 | a layout is assembled if and only if every target has exactly one valid layout, and its fields are the offsets of the sole members named fastbinsY, top, next, sbrk_base, arena_max, tcache_bins, ar_ptr, prev, size, mprotect_size and entries, and the counts, all within 32 bits |
| DwarfAssembly.AppliedOffsets | src/glibc/mod.rs:239-262 | the walkers then use, under each name, the offset of the member of that name, and nothing else of the layout changes |
| DwarfAssembly.MallocParAcceptedExactly | src/glibc/dwarf.rs:837-850 | malloc_par is accepted if and only if sbrk_base is a sole aligned pointer and arena_max and tcache_bins are absent or sole aligned unsigned words |
| DwarfAssembly.EntrySlotsInside | src/analyze.rs:262-265 | with an accepted layout, bin b's head is read at base + entries offset + 8b, inside the tcache structure |
| DwarfGeometry.AcceptedLayoutIsSound | src/glibc/dwarf.rs:699-758 | whatever the candidates, an accepted layout has fastbins, top and next disjoint inside malloc_state, four disjoint heap_info words (so at least four words of room), and 1 to 1024 tcache entries inside their structure |
| DwarfGeometry.FastbinSlotsMissTopAndNext | src/analyze.rs:304-308 | with an accepted layout no byte of any fastbin slot is a byte of top or next, even where addresses wrap around |
| DwarfRefs.ResolvesExactly | src/glibc/dwarf.rs:278-319 | on any graph, cyclic or not: resolving gives d if and only if typedefs and qualifiers (sections 5.3 and 5.4 of DWARF 5) point one to the next, in their own unit or by absolute offset, up to the structure d within 63 hops |
| DwarfRefs.LimitExactly | src/glibc/dwarf.rs:286-288 | the depth limit is hit if and only if the first 64 DIEs are distinct and all lead on |
| DwarfRefs.LoadUnitFindsTheUnit | src/glibc/dwarf.rs:657-679 | the search among headers in order finds the unit whose entries contain the offset, if and only if one does (unit headers as in section 7.5.1 of DWARF 5) |
| DwarfRefs.LinksPoint | src/glibc/dwarf.rs:620-639 | a reference leads to the DIE at the same unit's relative offset, or to the one at the absolute offset, and any other form leads nowhere |
| DwarfRefs.UnitHoldsExactly | src/glibc/dwarf.rs:657-679 | among headers in order, an absolute offset is that of a DIE in the one unit containing it |
| Notes.WalkNoteSegment | src/elf/notes.rs:38-89 | the loop gives the specified notes, and terminates on every buffer |
| Notes.NotesRoundTrip | src/elf/notes.rs:36-89 | any notes with NUL-free UTF-8 names, encoded as padded records (the note section of the System V gABI, chapter 5), are parsed back |
| Notes.AsciiNotesRoundTrip | src/elf/notes.rs:72-79 | a segment of notes with NUL-free ASCII names comes back whole |
| Notes.TruncationGivesPrefix | src/elf/notes.rs:42-71 | for any bytes, walking a truncation gives a prefix of the notes |
| Notes.RecordsRoundTrip | src/elf/notes.rs:72-86 | any records, with any bytes as names, are parsed to their notes: the name up to its first NUL, and no note for a name that is not UTF-8, at no cost to the others |
| Notes.TrimmedExactly | src/elf/notes.rs:75-78 | a name is what comes before the first NUL, or all of it |
| Utf8.Utf8Exactly | src/elf/notes.rs:79 | a name is valid if and only if it is the UTF-8 encoding of some Unicode scalar values (section 3 of RFC 3629) |
| Notes.RecordExactly | src/elf/notes.rs:43-70 | no checked addition overflows on a buffer that can exist: a record is there if and only if all its bytes are |
| Notes.Align4IsMask | src/elf/notes.rs:203-206 | the modelled rounding is adding three and masking two bits |
| CoreDump.Threads | src/elf/coredump.rs:49-79 | the pending-TLS loop computes the specified pairing, or the first malformed PRSTATUS error |
| CoreDump.GroupsGiveThreads | src/elf/coredump.rs:49-79 | any sequence of per-thread groups, PRSTATUS and non-null TLS note in either order among unrelated notes, gives one thread per group with its own registers, id and thread pointer |
| CoreDump.GroupGivesThread | src/elf/coredump.rs:54-77 | each group leaves nothing pending and a last thread with a thread pointer |
| CoreDump.X86ThreadsAreTheirOwn | src/elf/coredump.rs:54-67 | on x86-64 there is one thread per PRSTATUS, in order, with its own registers, id and fs_base, whatever the other notes |
| CoreDump.ShortPrstatusIsFatal | src/elf/coredump.rs:44-56 | threads fail if and only if some PRSTATUS is too short, with the sizes of the first such |
| CoreDump.X86PrstatusReadsBack | src/arch/x86_64.rs:20-66 | the id 32 bytes in and registers 16, 19 and 21 of the file at 112 are read back as id, pc, sp and tp |
| CoreDump.Aarch64PrstatusReadsBack | src/arch/aarch64.rs:20-66 | the id 32 bytes in and registers 32 and 31 of the file at 112 are read back as id, pc and sp, and no tp |
| CoreDump.TlsNoteReadsBack | src/arch/aarch64.rs:67-73 | the first eight bytes of the aarch64 TLS note are the thread pointer |
| Mappings.ReadTable | src/elf/coredump.rs:99-112 | the loop over triples computes the specified table and its end |
| Mappings.ReadMappings | src/elf/coredump.rs:94-126 | the two loops compute the specified mappings |
| Mappings.MappingsRoundTrip | src/elf/coredump.rs:81-127 | mappings encoded into a complete descriptor are parsed back if and only if there are at most 100,000 |
| Mappings.ComposedRoundTrip | src/elf/coredump.rs:87-127 | mappings in the first NT_FILE note, and that note among others in a segment, all come back |
| Mappings.FirstFileNoteDecides | src/elf/coredump.rs:88-90 | the first NT_FILE note alone decides |
| Mappings.NoFileNoteGivesNone | src/elf/coredump.rs:88-90 | without one there are no mappings |
| Mappings.TruncatedPathsGivePrefix | src/elf/coredump.rs:81-86 | any descriptor cut behind its range table gives a prefix of the mappings |
| Mappings.TruncationExactly | src/elf/coredump.rs:94-126 | any descriptor cut anywhere gives a prefix of the mappings if and only if the cut lies behind the range table or the strings in what is left of the table happen to be the first paths |
| Mappings.TruncationByZeroBytes | src/elf/coredump.rs:101-118 | when there is no path or the first is at least as long as a range: a cut in the table gives a prefix if and only if no range is complete or no byte left of the table is zero |
| Mappings.TruncatedTableMisleads | src/elf/coredump.rs:114-118 | a descriptor cut inside its range table right after a zero byte gives one mapping with an empty path, so no prefix when the first path is not empty |
| Mappings.TwoPagesMislead | src/elf/coredump.rs:81-86 | an instance: of two page-aligned mappings, cut one byte into the second range, the first comes back alone and without its path |
| Bytes.LeRoundTrip | src/elf/mod.rs:53-80 | little-endian words read back what was written |

## Left out

- 32-bit targets in the heap walk: the header, minimum and alignment constants are those of 64-bit targets, as every read of memory is eight bytes wide. NT_FILE is modelled for both widths.
- A mapped last word of the address space: taken as unmapped, so that skipping zero padding cannot wrap around.
- Problem texts: a problem is a datatype with its arena, bin, thread, address or a reason; its wording is not modelled, nor are the kinds raised while locating or identifying libc.
- Command line, JSON output, library location, symbol and relocation scanning, version detection and the built-in offset tables: I/O, or lookups with only easy claims.
- Parsing of ELF and DWARF themselves, decompression, checksums: foreign code. Memory is a partial map; the DIEs are a map from unit and offset, a unit's extent is its header's, and loading a unit does not fail.
- Scanning units for candidates, `parse_structure`, `resolve_type`, array dimensions, member locations and target names: candidates arrive as structures with resolved members.
- Error texts of DWARF validation: kept only as the error's kind; which kind a rejected structure or reference gives is modelled, and stated for the depth limit and for selection only.
- Overlap inside `malloc_par`, and alignment of the fastbin and tcache arrays: not checked by the code, so not claimed.
- Names and paths as text: names are the bytes of valid UTF-8, paths are bytes; replacement of invalid UTF-8 in paths is not modelled.
- Build ids, note sections and collecting the segments of a file: only the record walk itself is modelled.
- Lengths beyond memory: a vector has fewer than 2^64 elements and a buffer at most isize::MAX bytes.
- In-place update outside `SizeTally`: sets, maps and vectors that the code mutates are values in method variables, and what `collect_tcache` changes through references is passed in and returned, so aliasing is not modelled.
- DwarfGeometry.AcceptedLayoutIsSound: says nothing about `malloc_par`, whose members the code does not require to be apart.
- Report.ReportedTotalsAgree: only without a reported inconsistency, as clamping breaks equality of histograms and totals otherwise; bytes only where they fit 64 bits.
