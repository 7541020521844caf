/** From an abstract heap in memory, through every stage of the analysis, to the report of every arena. */
module EndToEnd {
  import opened Words
  import opened Memory
  import opened FreeLists
  import opened Arenas
  import opened ChunkWalk
  import opened Sums
  import opened Stats
  import opened Report
  import opened Tls
  import opened Pipeline
  import opened AbstractHeap
  import opened ProcessHeaps
  import opened ProcessWalk
  import opened ProcessTls
  import opened ProcessBooks

  /** The heaps of each arena are listed silently, and their walks give the arena's chunks, silently. */
  lemma ShareIsWalked(mem: Mem, layout: Layout, libc: U64, p: Process, a: nat)
    requires mem.TopWordUnmapped() && layout.heapMaxSize > 0
    requires a < |p.shares| < MAX_ARENAS && SoundShare(layout, p, a) && SoundBlocks(layout, p.blocks)
    requires HoldsShare(mem, layout, libc, p, a)
    requires forall i :: 0 <= i < |p.blocks| ==> HoldsChunk(mem, p.blocks[i])
    ensures var s := p.shares[a];
            && s.from <= s.to <= |p.blocks|
            && SoundBlocks(layout, ShareBlocks(p, s))
            && HeapList.ListHeaps(mem, layout, libc, Arena(s.address, a)) == Ok((HeapsOf(s.runs), []))
            && ChunksOf(mem, Arena(s.address, a), HeapsOf(s.runs)).0 == BlockEvents(layout, ShareBlocks(p, s))
            && ChunksOf(mem, Arena(s.address, a), HeapsOf(s.runs)).1 == []
  {
    hide SoundBlocks, HoldsChunk, HoldsHeap, HoldsMain, HoldsFastbin, ChunksOf, HeapList.ListMain, HeapList.ListSecondary;
    if a == 0 {
      var base, top :| HoldsMain(mem, layout, libc, p, p.shares[a], base, top);
      ListsMain(mem, layout, libc, p, base, top);
      MainIsWalked(mem, layout, libc, p, base, top);
    } else {
      var top :| HoldsSecondary(mem, layout, p, p.shares[a], top);
      ListsSecondary(mem, layout, p, a, top);
      SecondaryIsWalked(mem, layout, p, a, top);
    }
  }

  lemma ShareIsAccounted(
      mem: Mem, layout: Layout, libc: U64, threads: seq<Thread>, p: Process, a: nat, members: Membership)
    requires Represents(mem, layout, libc, threads, p) && a < |p.shares|
    requires OwnersMatch(threads, p.blocks, members)
    ensures SoundShare(layout, p, a) && p.shares[a].from <= p.shares[a].to <= |p.blocks|
    ensures var arena := Arena(p.shares[a].address, a);
            && Fastbins(mem, layout, arena, layout.fastbinCount).1 == []
            && Accounted(layout, threads, ShareBlocks(p, p.shares[a]), a, members, p.shares[a].fastOrder,
                         Fastbins(mem, layout, arena, layout.fastbinCount).0)
  {
    hide SoundBlock, Disjoint, HoldsChunk, HoldsFastbin, HoldsMain, HoldsSecondary, RingPath, HoldsThread;
    hide OwnerMatches, Fastbins, Sum, ResultOf;
    var s := p.shares[a];
    assert SoundShare(layout, p, a) && HoldsShare(mem, layout, libc, p, a);
    SomeAreSound(layout, p.blocks, s.from, s.to);
    WalksFastbins(mem, layout, p, a, layout.fastbinCount);
    var blocks := ShareBlocks(p, s);
    forall i | 0 <= i < |blocks|
      ensures OwnerMatches(threads, blocks[i], members)
      ensures blocks[i].fate.Fast? ==> blocks[i].fate.arena == a
      ensures blocks[i].fate.Cached? ==> blocks[i].fate.thread < |threads|
    {
      assert blocks[i] == p.blocks[s.from + i];
      FateOfShare(layout, |threads|, p, a, s.from + i);
    }
    forall f: U32 | f < layout.fastbinCount
      ensures |s.fastOrder[f]| == Sum(blocks, HasFate(Fast(a, f))) && |s.fastOrder[f]| <= MAX_CHAIN
    {
      FastbinLength(layout, |threads|, p, a, f);
      assert Orders(p, s.fastOrder[f], Fast(a, f));
    }
  }

  /** A chunk of an arena is in no other arena's fastbins. */
  lemma FateOfShare(layout: Layout, threads: nat, p: Process, a: nat, i: nat)
    requires WellFormed(layout, threads, p) && a < |p.shares| && i < |p.blocks|
    requires p.shares[a].from <= i < p.shares[a].to
    ensures p.blocks[i].fate.Fast? ==> p.blocks[i].fate.arena == a
    ensures p.blocks[i].fate.Cached? ==> p.blocks[i].fate.thread < threads
  {
    hide SoundBlocks, Orders;
    if p.blocks[i].fate.Fast? {
      var b := p.blocks[i].fate.arena;
      if a < b {
        SharesInOrder(layout, p, a, b);
      } else if b < a {
        SharesInOrder(layout, p, b, a);
      }
    }
  }

  lemma {:induction false} SharesInOrder(layout: Layout, p: Process, a: nat, b: nat)
    requires a < b < |p.shares| && forall c :: 0 <= c < |p.shares| ==> SoundShare(layout, p, c)
    ensures p.shares[a].to <= p.shares[b].from
    decreases b
  {
    hide Orders;
    assert SoundShare(layout, p, b);
    if a < b - 1 {
      SharesInOrder(layout, p, a, b - 1);
      assert SoundShare(layout, p, b - 1);
    }
  }

  lemma ShareReported(
      mem: Mem, layout: Layout, libc: U64, threads: seq<Thread>, p: Process, a: nat, tls: TlsInfo)
    requires Represents(mem, layout, libc, threads, p) && a < |p.shares|
    requires OwnersMatch(threads, p.blocks, tls.members)
    ensures SoundShare(layout, p, a)
    ensures var outcome := AnalyzeArena(mem, layout, libc, threads, tls, Arena(p.shares[a].address, a));
            && outcome.Ok? && outcome.value.1 == []
            && ReportsShare(layout, threads, p, a, outcome.value.0)
  {
    hide Tells, TellsCached, FastTallies, OwnersMatch, Walk, Accounted, HoldsShare, SoundShare, SoundBlocks, HoldsChunk;
    hide HoldsThread, RingPath, ChunksOf, Fastbins, HeapList.ListHeaps, Account, CachedBy, Attached;
    var s := p.shares[a];
    var arena := Arena(s.address, a);
    ShareIsWalked(mem, layout, libc, p, a);
    ShareIsAccounted(mem, layout, libc, threads, p, a, tls.members);
    var heaps, blocks := HeapsOf(s.runs), ShareBlocks(p, s);
    HeapsBounded(mem, layout, libc, arena);
    ChunksBounded(mem, arena, heaps);
    var results := Fastbins(mem, layout, arena, layout.fastbinCount).0;
    StatsReport(layout, threads, blocks, a, tls.members, s.fastOrder, results);
    StatsFill(mem, layout, libc, threads, tls, arena, heaps, BlockEvents(layout, blocks), results);
    OverheadFits(|blocks|, |heaps|);
  }

  lemma OverheadFits(chunks: nat, heaps: nat)
    requires chunks <= MAX_CHUNKS * heaps && heaps <= HeapList.MAX_HEAPS
    ensures Min(8 * chunks, MAX_U64) == 8 * chunks && chunks < TWO64
  {
    assert MAX_CHUNKS * heaps <= MAX_CHUNKS * HeapList.MAX_HEAPS;
  }

  /** When every stage before it is silent, the report of an arena is filled from its statistics. */
  lemma StatsFill(
      mem: Mem, layout: Layout, libc: U64, threads: seq<Thread>, tls: TlsInfo, arena: Arena,
      heaps: seq<HeapList.Heap>, events: seq<ChunkEvent>, results: seq<FastbinResult>)
    requires mem.TopWordUnmapped() && layout.heapMaxSize > 0 && |events| < TWO64 && |heaps| < TWO64
    requires HeapList.ListHeaps(mem, layout, libc, arena) == Ok((heaps, []))
    requires ChunksOf(mem, arena, heaps).0 == events && ChunksOf(mem, arena, heaps).1 == []
    requires Fastbins(mem, layout, arena, layout.fastbinCount).0 == results
    requires Fastbins(mem, layout, arena, layout.fastbinCount).1 == []
    ensures var outcome := AnalyzeArena(mem, layout, libc, threads, tls, arena);
            var (stats, problems) := Account(arena.index, events, tls.members, results);
            && outcome.Ok? && outcome.value.1 == problems
            && var r := outcome.value.0;
               && r.index == arena.index && r.isMain == (arena.index == 0)
               && r.heaps.count == |heaps|
               && r.heaps.totalBytes == Min(Sum(heaps, HeapSize()), MAX_U64)
               && r.heaps.committedBytes == Min(Sum(heaps, HeapCommitted()), MAX_U64)
               && r.alloc == Summarize(stats.alloc) && r.free == Summarize(stats.free)
               && r.fastbins == stats.fastbins && r.tcacheThreads == stats.tcacheThreads
               && r.tcacheBins == stats.tcacheBins
               && r.overheadCount == stats.overheadCount && r.overheadBytes == stats.overheadBytes
  {
    hide ChunksOf, Fastbins, HeapList.ListHeaps, Account, Attached;
    var problems := Account(arena.index, events, tls.members, results).1;
    assert [] + [] + [] + problems == problems;
  }

  lemma {:induction false} SharesReported(
      mem: Mem, layout: Layout, libc: U64, threads: seq<Thread>, p: Process, n: nat, tls: TlsInfo)
    requires Represents(mem, layout, libc, threads, p) && n <= |p.shares|
    requires OwnersMatch(threads, p.blocks, tls.members)
    ensures var outcome := AnalyzeArenas(mem, layout, libc, threads, tls, ArenasAt(Addresses(p))[..n]);
            && outcome.Ok? && outcome.value.problems == [] && |outcome.value.reports| == n
            && forall a :: 0 <= a < n ==>
                 SoundShare(layout, p, a) && ReportsShare(layout, threads, p, a, outcome.value.reports[a])
    decreases n
  {
    hide Represents, WellFormed, OwnersMatch, AnalyzeArena, ReportsShare, SoundShare;
    Basics(mem, layout, libc, threads, p);
    if n > 0 {
      var arenas := ArenasAt(Addresses(p));
      SharesReported(mem, layout, libc, threads, p, n - 1, tls);
      assert arenas[..n][..n - 1] == arenas[..n - 1] && arenas[..n][n - 1] == Arena(p.shares[n - 1].address, n - 1);
      ShareReported(mem, layout, libc, threads, p, n - 1, tls);
    }
  }

  lemma Basics(mem: Mem, layout: Layout, libc: U64, threads: seq<Thread>, p: Process)
    requires Represents(mem, layout, libc, threads, p)
    ensures mem.TopWordUnmapped() && layout.heapMaxSize > 0 && 0 < |p.shares| < MAX_ARENAS
    ensures WellFormed(layout, |threads|, p)
  {
  }

  /**
   * Whenever memory represents an abstract heap over any number of arenas, the analysis reports no problem and, for
   * each arena, exactly the simple count: allocated is its live chunks, free all its others, and every bin has its
   * chunks, whichever arena's heap and whichever thread's tcache they are in.
   */
  lemma EndToEnd(mem: Mem, layout: Layout, libc: U64, threads: seq<Thread>, p: Process)
    requires Represents(mem, layout, libc, threads, p)
    ensures var outcome := Analyze(mem, layout, libc, threads);
            && outcome.Ok? && outcome.value.problems == [] && |outcome.value.reports| == |p.shares|
            && forall a :: 0 <= a < |p.shares| ==>
                 SoundShare(layout, p, a) && ReportsShare(layout, threads, p, a, outcome.value.reports[a])
  {
    hide HoldsThread, SoundBlocks, HoldsChunk, RingPath, AnalyzeArenas, ReportsShare, OwnersMatch, Resolve;
    assert SoundShare(layout, p, 0) && HoldsShare(mem, layout, libc, p, 0);
    var base, top :| HoldsMain(mem, layout, libc, p, p.shares[0], base, top);
    ListsArenas(mem, layout, libc, p);
    var main := MainAddress(layout, libc);
    ResolvesOwners(mem, layout, libc, main, threads, p);
    var arenas := ArenasAt(Addresses(p));
    SharesReported(mem, layout, libc, threads, p, |p.shares|, Resolve(mem, layout, libc, main, threads));
    assert arenas[..|p.shares|] == arenas;
  }
}
