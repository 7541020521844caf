/** What the report of every arena is, whatever the memory, in terms of the chunks walked and who first claims them. */
module Findings {
  import opened Words
  import opened Memory
  import opened FreeLists
  import opened Arenas
  import opened HeapList
  import opened ChunkWalk
  import opened Sums
  import opened Stats
  import opened Accounting
  import opened Report
  import opened Tls
  import opened TcacheOwnership
  import opened Pipeline

  // ----- What is walked and what is claimed -----

  /** The owners of cached chunks: for each address, the first thread and bin whose chain holds it. */
  ghost predicate OwnersAre(mem: Mem, layout: Layout, libc: U64, threads: seq<Thread>, owners: Membership) {
    if layout.tpOffReloc.None? then owners == map[]
    else FirstClaimWins(AllClaims(mem, layout, libc, threads), owners)
  }

  /** What the chunks walked in the regions of the heaps weigh together. */
  ghost function WalkedSum(mem: Mem, arena: Arena, heaps: seq<Heap>, f: ChunkEvent -> nat): nat {
    if heaps == [] then 0
    else
      var h := heaps[|heaps| - 1];
      WalkedSum(mem, arena, heaps[..|heaps| - 1], f)
      + Sum(Walk(mem, arena.index, h.regionStart, h.regionEnd, arena.index == 0).0, f)
  }

  function Once(): ChunkEvent -> nat {
    (e: ChunkEvent) => 1
  }

  /** The head of fastbin `f`: the word in the arena's array. */
  function FastbinHeadWord(mem: Mem, layout: Layout, arena: Arena, f: nat): Option<U64> {
    mem.Read((arena.mallocStateAddr + layout.fastbinArrayOffset + 8 * f) % TWO64)
  }

  /** How many chunks a fastbin claims: those on the chain from its head, none if the head is unreadable. */
  ghost function ClaimedBy(mem: Mem, layout: Layout, arena: Arena, f: nat): nat {
    match FastbinHeadWord(mem, layout, arena, f)
    case None => 0
    case Some(head) => |ChainTrail(mem, layout, 16, head).nodes|
  }

  /** What the first `bins` fastbins claim, at the payload size of each bin. */
  ghost function ClaimedSum(mem: Mem, layout: Layout, arena: Arena, bins: nat, m: Measure): nat {
    if bins == 0 then 0
    else
      ClaimedSum(mem, layout, arena, bins - 1, m)
      + Weigh(m, 24 + 16 * (bins - 1), ClaimedBy(mem, layout, arena, bins - 1))
  }

  /** The entries of the fastbins that claim chunks, among the first `bins`. */
  ghost function ClaimedTallies(mem: Mem, layout: Layout, arena: Arena, bins: U32): seq<BinTally>
    decreases bins
  {
    if bins == 0 then []
    else
      var f := bins - 1;
      var n := ClaimedBy(mem, layout, arena, f);
      ClaimedTallies(mem, layout, arena, f)
      + if n == 0 then [] else [BinTally(f, 24 + 16 * f, Min(n, MAX_U64), Min(Area(24 + 16 * f, n), MAX_U64))]
  }

  // ----- What is reported -----

  /** A summary with these readings: count, bytes, and one bucket for each size that has chunks, ascending. */
  ghost predicate Shows(s: ChunkSummary, reading: Measure -> int) {
    && s.count == reading(Chunks)
    && s.bytes == reading(Bytes)
    && Ascending(s.sizeHistogram)
    && (forall i :: 0 <= i < |s.sizeHistogram| ==>
          && s.sizeHistogram[i].count == reading(OfSize(s.sizeHistogram[i].size)) > 0
          && s.sizeHistogram[i].bytes == Min(Area(s.sizeHistogram[i].size, s.sizeHistogram[i].count), MAX_U64))
    && (forall size: U64 :: reading(OfSize(size)) > 0 ==>
          exists i :: 0 <= i < |s.sizeHistogram| && s.sizeHistogram[i].size == size)
  }

  /** Allocated: the chunks walked that are in use and nobody's in a tcache, less what the fastbins claim. */
  ghost function AllocReading(mem: Mem, layout: Layout, owners: Membership, arena: Arena, heaps: seq<Heap>): Measure -> int {
    (m: Measure) =>
      Max(Min(WalkedSum(mem, arena, heaps, AllocWeight(owners, m)), MAX_U64)
          - ClaimedSum(mem, layout, arena, layout.fastbinCount, m), 0)
  }

  /** Free: the other chunks walked, and what the fastbins claim. */
  ghost function FreeReading(mem: Mem, layout: Layout, owners: Membership, arena: Arena, heaps: seq<Heap>): Measure -> int {
    (m: Measure) =>
      Min(WalkedSum(mem, arena, heaps, FreeWeight(owners, m))
          + ClaimedSum(mem, layout, arena, layout.fastbinCount, m), MAX_U64)
  }

  /** The tcache bins that own chunks walked, ascending, each with their number. */
  ghost predicate ShowsCached(mem: Mem, owners: Membership, arena: Arena, heaps: seq<Heap>, bins: seq<BinTally>) {
    && (forall i, j :: 0 <= i < j < |bins| ==> bins[i].index < bins[j].index)
    && (forall i :: 0 <= i < |bins| ==>
          && bins[i].count == WalkedSum(mem, arena, heaps, CachedInBin(owners, bins[i].index)) > 0
          && bins[i].size == 24 + 16 * bins[i].index
          && bins[i].bytes == Min(Area(bins[i].size, bins[i].count), MAX_U64))
    && (forall bin: U32 :: WalkedSum(mem, arena, heaps, CachedInBin(owners, bin)) > 0 ==>
          exists i :: 0 <= i < |bins| && bins[i].index == bin)
  }

  /** Owned by a thread, and in use by the walk's measure. */
  function CachedByThread(owners: Membership, id: I32): ChunkEvent -> nat {
    (e: ChunkEvent) => if e.prevInuseSaysInUse && e.userAddr in owners && owners[e.userAddr].thread == id then 1 else 0
  }

  /** The report of an arena whose heaps are these. */
  ghost predicate ReportsHeaps(
      mem: Mem, layout: Layout, owners: Membership, arena: Arena, heaps: seq<Heap>, r: ArenaReport)
  {
    && r.heaps.count == |heaps|
    && r.heaps.totalBytes == Min(Sum(heaps, HeapSize()), MAX_U64)
    && r.heaps.committedBytes == Min(Sum(heaps, HeapCommitted()), MAX_U64)
    && Shows(r.alloc, AllocReading(mem, layout, owners, arena, heaps))
    && Shows(r.free, FreeReading(mem, layout, owners, arena, heaps))
    && r.fastbins == ClaimedTallies(mem, layout, arena, layout.fastbinCount)
    && ShowsCached(mem, owners, arena, heaps, r.tcacheBins)
    && (forall id :: id in r.tcacheThreads <==> WalkedSum(mem, arena, heaps, CachedByThread(owners, id)) > 0)
    && r.overheadCount == WalkedSum(mem, arena, heaps, Once())
    && r.overheadBytes == 8 * r.overheadCount
  }

  /** The entry for an arena whose heaps cannot be listed: nothing. */
  predicate ReportsNothing(r: ArenaReport) {
    && r.heaps == HeapsSummary(0, 0, 0) && r.alloc == ChunkSummary(0, 0, []) && r.free == ChunkSummary(0, 0, [])
    && r.fastbins == [] && r.tcacheThreads == {} && r.tcacheBins == [] && r.overheadCount == 0 && r.overheadBytes == 0
  }

  ghost predicate ReportsArena(
      mem: Mem, layout: Layout, libc: U64, owners: Membership, arena: Arena, r: ArenaReport)
    requires mem.TopWordUnmapped() && layout.heapMaxSize > 0
  {
    && r.index == arena.index && r.isMain == (arena.index == 0)
    && match ListHeaps(mem, layout, libc, arena)
       case Err(_) => ReportsNothing(r)
       case Ok((heaps, _)) => ReportsHeaps(mem, layout, owners, arena, heaps, r)
  }

  // ----- Proofs -----

  lemma {:induction false} ChunksSum(mem: Mem, arena: Arena, heaps: seq<Heap>, f: ChunkEvent -> nat)
    ensures Sum(ChunksOf(mem, arena, heaps).0, f) == WalkedSum(mem, arena, heaps, f)
  {
    hide Walk;
    if heaps != [] {
      var h, before := heaps[|heaps| - 1], heaps[..|heaps| - 1];
      ChunksSum(mem, arena, before, f);
      SumConcat(ChunksOf(mem, arena, before).0,
                Walk(mem, arena.index, h.regionStart, h.regionEnd, arena.IsMain()).0, f);
    }
  }

  lemma {:induction false} SumOnce(events: seq<ChunkEvent>)
    ensures Sum(events, Once()) == |events|
  {
    if events != [] {
      SumOnce(events[..|events| - 1]);
    }
  }

  lemma {:induction false} SumPositive(events: seq<ChunkEvent>, f: ChunkEvent -> nat)
    ensures Sum(events, f) > 0 <==> exists i :: 0 <= i < |events| && f(events[i]) > 0
  {
    if events != [] {
      var n := |events| - 1;
      SumPositive(events[..n], f);
      if exists i :: 0 <= i < |events| && f(events[i]) > 0 {
        var i :| 0 <= i < |events| && f(events[i]) > 0;
        assert i < n ==> events[..n][i] == events[i];
      }
    }
  }

  lemma HeadIsSlot(mem: Mem, layout: Layout, arena: Arena, f: U32)
    ensures mem.Read(FastbinSlot(layout, arena, f)) == FastbinHeadWord(mem, layout, arena, f)
  {
  }

  lemma {:induction false} FastbinsSum(mem: Mem, layout: Layout, arena: Arena, bins: U32, m: Measure)
    ensures Sum(Fastbins(mem, layout, arena, bins).0, MovedWeight(m)) == ClaimedSum(mem, layout, arena, bins, m)
    decreases bins
  {
    hide FastbinSlot, FastbinHeadWord, Weigh, ChainTrail;
    if bins > 0 {
      FastbinsSum(mem, layout, arena, bins - 1, m);
      HeadIsSlot(mem, layout, arena, bins - 1);
      NothingMoved(m, 24 + 16 * (bins - 1));
      var before, all := Fastbins(mem, layout, arena, bins - 1).0, Fastbins(mem, layout, arena, bins).0;
      if FastbinHeadWord(mem, layout, arena, bins - 1).Some? {
        assert all[..|before|] == before;
      }
    }
  }

  lemma {:induction false} FastbinsTally(mem: Mem, layout: Layout, arena: Arena, bins: U32, b: Books, index: U32)
    ensures MoveAll(b, Fastbins(mem, layout, arena, bins).0, index).fastbins == ClaimedTallies(mem, layout, arena, bins)
    decreases bins
  {
    hide FastbinSlot, FastbinHeadWord, ChainTrail, Added, Removed, Underflows;
    if bins > 0 {
      FastbinsTally(mem, layout, arena, bins - 1, b, index);
      HeadIsSlot(mem, layout, arena, bins - 1);
      var before, all := Fastbins(mem, layout, arena, bins - 1).0, Fastbins(mem, layout, arena, bins).0;
      if FastbinHeadWord(mem, layout, arena, bins - 1).Some? {
        TrailBounded(mem, layout, 16, FastbinHeadWord(mem, layout, arena, bins - 1).value);
        assert all[..|before|] == before;
      }
    }
  }

  lemma SummaryShows(t: Tally, reading: Measure -> int)
    requires forall m :: Reading(t, m) == reading(m)
    ensures Shows(Summarize(t), reading)
  {
    hide SaturatingMul;
    var s := Summarize(t);
    assert Reading(t, Chunks) == s.count && Reading(t, Bytes) == s.bytes;
    BucketsList(t.histogram);
    forall i | 0 <= i < |s.sizeHistogram|
      ensures s.sizeHistogram[i].count == reading(OfSize(s.sizeHistogram[i].size)) > 0
      ensures s.sizeHistogram[i].bytes == Min(Area(s.sizeHistogram[i].size, s.sizeHistogram[i].count), MAX_U64)
    {
      assert TalliesSize(t.histogram, s.sizeHistogram[i]);
      assert Reading(t, OfSize(s.sizeHistogram[i].size)) == s.sizeHistogram[i].count;
      ClampedProduct(s.sizeHistogram[i].size, s.sizeHistogram[i].count);
    }
    forall size: U64 | reading(OfSize(size)) > 0
      ensures exists i :: 0 <= i < |s.sizeHistogram| && s.sizeHistogram[i].size == size
    {
      assert Reading(t, OfSize(size)) > 0;
    }
  }

  lemma ClampedProduct(size: U64, count: U64)
    ensures SaturatingMul(size, count) == Min(Area(size, count), MAX_U64)
  {
  }

  lemma CachedShown(mem: Mem, owners: Membership, arena: Arena, heaps: seq<Heap>)
    requires |ChunksOf(mem, arena, heaps).0| < TWO64
    ensures var b := PostAll(ChunksOf(mem, arena, heaps).0, owners);
            && ShowsCached(mem, owners, arena, heaps, TcacheBins(b.cached))
            && forall id :: id in b.threads <==> WalkedSum(mem, arena, heaps, CachedByThread(owners, id)) > 0
  {
    hide TcacheBins, PostAll, HistSum, Sum, ChunksOf, WalkedSum, SaturatingMul;
    var events := ChunksOf(mem, arena, heaps).0;
    var cached := PostAll(events, owners).cached;
    CachedCounts(events, owners);
    TcacheBinsList(cached);
    forall bin: U32
      ensures BinCount(cached, bin) == WalkedSum(mem, arena, heaps, CachedInBin(owners, bin))
    {
      ChunksSum(mem, arena, heaps, CachedInBin(owners, bin));
    }
    var bins := TcacheBins(cached);
    forall i | 0 <= i < |bins|
      ensures bins[i].count == WalkedSum(mem, arena, heaps, CachedInBin(owners, bins[i].index)) > 0
              && bins[i].size == 24 + 16 * bins[i].index
              && bins[i].bytes == Min(Area(bins[i].size, bins[i].count), MAX_U64)
    {
      assert TalliesBin(cached, bins[i]);
      assert BinCount(cached, bins[i].index) == bins[i].count;
      ClampedProduct(bins[i].size, bins[i].count);
    }
    forall bin: U32 | WalkedSum(mem, arena, heaps, CachedInBin(owners, bin)) > 0
      ensures exists i :: 0 <= i < |bins| && bins[i].index == bin
    {
      assert BinCount(cached, bin) > 0;
    }
    forall id
      ensures id in PostAll(events, owners).threads <==> WalkedSum(mem, arena, heaps, CachedByThread(owners, id)) > 0
    {
      ThreadPosted(events, owners, id);
      ChunksSum(mem, arena, heaps, CachedByThread(owners, id));
    }
  }

  lemma {:induction false} ThreadPosted(events: seq<ChunkEvent>, owners: Membership, id: I32)
    ensures id in PostAll(events, owners).threads <==> Sum(events, CachedByThread(owners, id)) > 0
  {
    if events != [] {
      ThreadPosted(events[..|events| - 1], owners, id);
    }
  }

  /** The statistics of an arena whose heaps are listed, whatever the memory. */
  lemma StatsShown(
      mem: Mem, layout: Layout, owners: Membership, arena: Arena, heaps: seq<Heap>, r: ArenaReport)
    requires |heaps| <= MAX_HEAPS && |ChunksOf(mem, arena, heaps).0| <= MAX_CHUNKS * |heaps|
    requires |ChunksOf(mem, arena, heaps).0| < TWO64
    requires var fastbins := Fastbins(mem, layout, arena, layout.fastbinCount).0;
             var stats := Account(arena.index, ChunksOf(mem, arena, heaps).0, owners, fastbins).0;
             r == Build(arena.index, arena.IsMain(), r.attachedThreads, heaps, stats)
    ensures ReportsHeaps(mem, layout, owners, arena, heaps, r)
  {
    hide ChunksOf, Fastbins, PostAll, MoveAll, TcacheBins, Shows, ShowsCached, Sum, WalkedSum;
    var events, fastbins := ChunksOf(mem, arena, heaps).0, Fastbins(mem, layout, arena, layout.fastbinCount).0;
    var stats := Account(arena.index, events, owners, fastbins).0;
    forall m: Measure
      ensures Reading(stats.alloc, m) == AllocReading(mem, layout, owners, arena, heaps)(m)
      ensures Reading(stats.free, m) == FreeReading(mem, layout, owners, arena, heaps)(m)
    {
      ClosedForm(arena.index, events, owners, fastbins, m);
      ChunksSum(mem, arena, heaps, AllocWeight(owners, m));
      ChunksSum(mem, arena, heaps, FreeWeight(owners, m));
      FastbinsSum(mem, layout, arena, layout.fastbinCount, m);
    }
    SummaryShows(stats.alloc, AllocReading(mem, layout, owners, arena, heaps));
    SummaryShows(stats.free, FreeReading(mem, layout, owners, arena, heaps));
    CachedShown(mem, owners, arena, heaps);
    FastbinsTally(mem, layout, arena, layout.fastbinCount, PostAll(events, owners), arena.index);
    ChunksSum(mem, arena, heaps, Once());
    SumOnce(events);
    assert MAX_CHUNKS * |heaps| <= MAX_CHUNKS * MAX_HEAPS;
  }

  lemma ArenaReportShown(
      mem: Mem, layout: Layout, libc: U64, threads: seq<Thread>, tls: TlsInfo, arena: Arena)
    requires mem.TopWordUnmapped() && layout.heapMaxSize > 0
    requires AnalyzeArena(mem, layout, libc, threads, tls, arena).Ok?
    ensures ReportsArena(mem, layout, libc, tls.members, arena,
                         AnalyzeArena(mem, layout, libc, threads, tls, arena).value.0)
  {
    hide ListHeaps, Fastbins, Account, ChunksOf, ReportsHeaps, Attached;
    var r := AnalyzeArena(mem, layout, libc, threads, tls, arena).value.0;
    if ListHeaps(mem, layout, libc, arena).Ok? {
      var heaps := ListHeaps(mem, layout, libc, arena).value.0;
      HeapsBounded(mem, layout, libc, arena);
      ChunksBounded(mem, arena, heaps);
      StatsShown(mem, layout, tls.members, arena, heaps, r);
    }
  }

  lemma {:induction false} ArenaReportsShown(
      mem: Mem, layout: Layout, libc: U64, threads: seq<Thread>, tls: TlsInfo, arenas: seq<Arena>)
    requires mem.TopWordUnmapped() && layout.heapMaxSize > 0
    requires AnalyzeArenas(mem, layout, libc, threads, tls, arenas).Ok?
    ensures var reports := AnalyzeArenas(mem, layout, libc, threads, tls, arenas).value.reports;
            && |reports| == |arenas|
            && forall i :: 0 <= i < |reports| ==>
                 ReportsArena(mem, layout, libc, tls.members, arenas[i], reports[i])
  {
    hide AnalyzeArena, ReportsArena;
    if arenas != [] {
      ArenaReportsShown(mem, layout, libc, threads, tls, arenas[..|arenas| - 1]);
      ArenaReportShown(mem, layout, libc, threads, tls, arenas[|arenas| - 1]);
    }
  }

  /** The first claims on addresses determine the owners. */
  lemma OwnersUnique(claims: seq<Claim>, owners: Membership, owners': Membership)
    requires FirstClaimWins(claims, owners) && FirstClaimWins(claims, owners')
    ensures owners == owners'
  {
    forall a | a in owners
      ensures a in owners' && owners'[a] == owners[a]
    {
      var i :| 0 <= i < |claims| && IsFirstOn(claims, i, a, owners[a]);
      var j :| 0 <= j < |claims| && IsFirstOn(claims, j, a, owners'[a]);
      assert i == j;
    }
    forall a | a in owners'
      ensures a in owners
    {
      var j :| 0 <= j < |claims| && IsFirstOn(claims, j, a, owners'[a]);
    }
  }

  lemma ResolvedOwners(mem: Mem, layout: Layout, libc: U64, main: U64, threads: seq<Thread>)
    ensures OwnersAre(mem, layout, libc, threads, Resolve(mem, layout, libc, main, threads).members)
  {
    if layout.tpOffReloc.Some? {
      TcacheOwners(mem, layout, libc, main, threads);
    }
  }

  /**
   * For any memory, main arena or secondary: each arena's report is what its heaps' walks and its fastbins' chains
   * give, with the chunks cached that some thread's tcache chain holds, each under the first thread and bin to
   * hold it.
   */
  lemma ReportsShown(mem: Mem, layout: Layout, libc: U64, threads: seq<Thread>, owners: Membership)
    requires mem.TopWordUnmapped() && layout.heapMaxSize > 0
    requires Analyze(mem, layout, libc, threads).Ok?
    requires OwnersAre(mem, layout, libc, threads, owners)
    ensures ListArenas(mem, layout, libc).Ok?
    ensures var arenas, reports := ListArenas(mem, layout, libc).value.0, Analyze(mem, layout, libc, threads).value.reports;
            && |reports| == |arenas|
            && forall i :: 0 <= i < |reports| ==> ReportsArena(mem, layout, libc, owners, arenas[i], reports[i])
  {
    hide ReportsArena, AnalyzeArenas, Resolve, AllClaims, FirstClaimWins;
    var main := MainAddress(layout, libc);
    var tls := Resolve(mem, layout, libc, main, threads);
    ResolvedOwners(mem, layout, libc, main, threads);
    if layout.tpOffReloc.Some? {
      OwnersUnique(AllClaims(mem, layout, libc, threads), owners, tls.members);
    }
    ArenaReportsShown(mem, layout, libc, threads, tls, ListArenas(mem, layout, libc).value.0);
  }
}
