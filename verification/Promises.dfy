/** What a reader may rely on when an analysis reports no problem, whatever the memory was. */
module Promises {
  import opened Words
  import opened Memory
  import opened FreeLists
  import opened Arenas
  import opened HeapList
  import opened Sums
  import opened ChunkWalk
  import opened Stats
  import opened Accounting
  import opened Report
  import opened Tls
  import opened Pipeline

  /** Allocated and free chunks together are all the chunks walked. */
  ghost predicate CountsAddUp(r: ArenaReport) {
    r.alloc.count + r.free.count == r.overheadCount
  }

  /** The bytes of the main arena's region are all accounted for: payloads and one header word per chunk. */
  ghost predicate BytesAddUp(mem: Mem, layout: Layout, libc: U64, arena: Arena, r: ArenaReport)
    requires mem.TopWordUnmapped() && layout.heapMaxSize > 0
  {
    var heaps := ListHeaps(mem, layout, libc, arena);
    heaps.Ok? && |heaps.value.0| == 1 ==>
      r.alloc.bytes + r.free.bytes + r.overheadBytes
      == heaps.value.0[0].regionEnd - heaps.value.0[0].regionStart
  }

  /** The bytes between the starts of the regions and the ends of the last chunks walked in them. */
  ghost function WalkedBytes(mem: Mem, arena: Arena, heaps: seq<Heap>): int {
    if heaps == [] then 0
    else
      var h := heaps[|heaps| - 1];
      WalkedBytes(mem, arena, heaps[..|heaps| - 1])
      + EndOf(h.regionStart, Walk(mem, arena.index, h.regionStart, h.regionEnd, arena.IsMain()).0) - h.regionStart
  }

  /** The chunks of the heap end where its region does, or, in a secondary arena, at a bridge. */
  ghost predicate WalkedThrough(mem: Mem, arena: Arena, h: Heap) {
    var end := EndOf(h.regionStart, Walk(mem, arena.index, h.regionStart, h.regionEnd, arena.IsMain()).0);
    end == h.regionEnd || (!arena.IsMain() && 0 <= end < TWO64 && BridgeAt(mem, h.regionEnd, false, end))
  }

  /**
   * All heaps of the arena are walked to the end or to a bridge, and payloads and header words make up every
   * byte walked, whenever these fit 64 bits.
   */
  ghost predicate HeapBytesAddUp(mem: Mem, layout: Layout, libc: U64, arena: Arena, r: ArenaReport)
    requires mem.TopWordUnmapped() && layout.heapMaxSize > 0
  {
    var listed := ListHeaps(mem, layout, libc, arena);
    listed.Ok? ==>
      && (forall h :: h in listed.value.0 ==> WalkedThrough(mem, arena, h))
      && (WalkedBytes(mem, arena, listed.value.0) < TWO64 ==>
            r.alloc.bytes + r.free.bytes + r.overheadBytes == WalkedBytes(mem, arena, listed.value.0))
  }

  lemma {:induction false} PayloadOfHeaps(mem: Mem, arena: Arena, heaps: seq<Heap>, members: Membership)
    ensures var events := ChunksOf(mem, arena, heaps).0;
            Sum(events, AllocWeight(members, Bytes)) + Sum(events, FreeWeight(members, Bytes)) + HEADER_SIZE * |events|
            == WalkedBytes(mem, arena, heaps)
  {
    hide Walk;
    if heaps != [] {
      var h, before := heaps[|heaps| - 1], heaps[..|heaps| - 1];
      var more := Walk(mem, arena.index, h.regionStart, h.regionEnd, arena.IsMain()).0;
      PayloadOfHeaps(mem, arena, before, members);
      EventsTile(mem, arena.index, h.regionStart, h.regionEnd, arena.IsMain());
      PayloadOfRegion(mem, h.regionStart, h.regionEnd, more, members);
      SumConcat(ChunksOf(mem, arena, before).0, more, AllocWeight(members, Bytes));
      SumConcat(ChunksOf(mem, arena, before).0, more, FreeWeight(members, Bytes));
    }
  }

  lemma {:induction false} SilentHeapsAreWalked(mem: Mem, arena: Arena, heaps: seq<Heap>)
    requires ChunksOf(mem, arena, heaps).1 == []
    ensures forall h :: h in heaps ==> WalkedThrough(mem, arena, h)
  {
    hide Walk;
    if heaps != [] {
      var h, before := heaps[|heaps| - 1], heaps[..|heaps| - 1];
      SilentHeapsAreWalked(mem, arena, before);
      EventsTile(mem, arena.index, h.regionStart, h.regionEnd, arena.IsMain());
      assert forall g :: g in heaps ==> g in before || g == h;
    }
  }

  lemma SilentArenaBytes(mem: Mem, layout: Layout, libc: U64, threads: seq<Thread>, tls: TlsInfo, arena: Arena)
    requires mem.TopWordUnmapped() && layout.heapMaxSize > 0
    requires var outcome := AnalyzeArena(mem, layout, libc, threads, tls, arena);
             outcome.Ok? && outcome.value.1 == []
    ensures HeapBytesAddUp(mem, layout, libc, arena, AnalyzeArena(mem, layout, libc, threads, tls, arena).value.0)
  {
    hide ListHeaps, Fastbins, Account, Walk, WalkedThrough, WalkedBytes, ChunksOf;
    var heaps := ListHeaps(mem, layout, libc, arena).value.0;
    HeapsBounded(mem, layout, libc, arena);
    ChunksBounded(mem, arena, heaps);
    var events := ChunksOf(mem, arena, heaps).0;
    SilentHeapsAreWalked(mem, arena, heaps);
    PayloadOfHeaps(mem, arena, heaps, tls.members);
    var fastbins := Fastbins(mem, layout, arena, layout.fastbinCount).0;
    SilentBytesAddUpExactly(arena.index, events, tls.members, fastbins);
    OverheadExact(arena.index, events, tls.members, fastbins, |heaps|);
  }

  lemma OverheadExact(
      arena: U32, events: seq<ChunkEvent>, members: Membership, fastbins: seq<FastbinResult>, heaps: nat)
    requires |events| <= MAX_CHUNKS * heaps && heaps <= MAX_HEAPS
    ensures Account(arena, events, members, fastbins).0.overheadBytes == HEADER_SIZE * |events|
  {
    assert MAX_CHUNKS * heaps <= MAX_CHUNKS * MAX_HEAPS;
  }

  /** Counts balance without any assumption on sizes. */
  lemma SilentCounts(arena: U32, events: seq<ChunkEvent>, members: Membership, fastbins: seq<FastbinResult>)
    requires |events| < TWO64 && Account(arena, events, members, fastbins).1 == []
    ensures var stats := Account(arena, events, members, fastbins).0;
            stats.alloc.count + stats.free.count == stats.overheadCount
  {
    var b := PostAll(events, members);
    PostedCounted(events, members);
    SilentMove(b, fastbins, arena);
    PostedReading(events, members, Chunks);
    PartitionCounts(events, members);
    ClosedForm(arena, events, members, fastbins, Chunks);
    var stats := Account(arena, events, members, fastbins).0;
    assert Reading(b.alloc, Chunks) == b.alloc.count;
    assert Reading(stats.alloc, Chunks) == stats.alloc.count && Reading(stats.free, Chunks) == stats.free.count;
  }

  lemma SilentArena(mem: Mem, layout: Layout, libc: U64, threads: seq<Thread>, tls: TlsInfo, arena: Arena)
    requires mem.TopWordUnmapped() && layout.heapMaxSize > 0
    requires var outcome := AnalyzeArena(mem, layout, libc, threads, tls, arena);
             outcome.Ok? && outcome.value.1 == []
    ensures var r := AnalyzeArena(mem, layout, libc, threads, tls, arena).value.0;
            && r.index == arena.index && r.isMain == arena.IsMain()
            && CountsAddUp(r)
            && HeapBytesAddUp(mem, layout, libc, arena, r)
            && (arena.IsMain() ==> BytesAddUp(mem, layout, libc, arena, r))
  {
    SilentArenaBytes(mem, layout, libc, threads, tls, arena);
    hide ListHeaps, Fastbins, Account, Walk, HeapBytesAddUp;
    var heaps := ListHeaps(mem, layout, libc, arena).value.0;
    HeapsBounded(mem, layout, libc, arena);
    ChunksBounded(mem, arena, heaps);
    var events := ChunksOf(mem, arena, heaps).0;
    var fastbins := Fastbins(mem, layout, arena, layout.fastbinCount).0;
    SilentCounts(arena.index, events, tls.members, fastbins);
    if arena.IsMain() && |heaps| == 1 {
      assert heaps[..0] == [];
      assert ChunksOf(mem, arena, []) == ([], []);
      var h := heaps[0];
      assert events == Walk(mem, arena.index, h.regionStart, h.regionEnd, true).0;
      BytesAreConserved(mem, arena.index, h.regionStart, h.regionEnd, tls.members, fastbins);
    }
  }

  lemma {:induction false} SilentArenas(
      mem: Mem, layout: Layout, libc: U64, threads: seq<Thread>, tls: TlsInfo, arenas: seq<Arena>)
    requires mem.TopWordUnmapped() && layout.heapMaxSize > 0
    requires var outcome := AnalyzeArenas(mem, layout, libc, threads, tls, arenas);
             outcome.Ok? && outcome.value.problems == []
    ensures var reports := AnalyzeArenas(mem, layout, libc, threads, tls, arenas).value.reports;
            && |reports| == |arenas|
            && forall i :: 0 <= i < |reports| ==>
                 && reports[i].index == arenas[i].index && CountsAddUp(reports[i])
                 && HeapBytesAddUp(mem, layout, libc, arenas[i], reports[i])
                 && (arenas[i].IsMain() ==> BytesAddUp(mem, layout, libc, arenas[i], reports[i]))
  {
    hide BytesAddUp, CountsAddUp, HeapBytesAddUp, AnalyzeArena;
    if arenas != [] {
      SilentArenas(mem, layout, libc, threads, tls, arenas[..|arenas| - 1]);
      SilentArena(mem, layout, libc, threads, tls, arenas[|arenas| - 1]);
    }
  }

  /**
   * For any memory: an analysis without problems has one report per listed arena, in each of which allocated
   * and free make up all chunks, and they and the headers all bytes of its heaps up to their ends or bridges,
   * whenever these fit 64 bits; in the main arena they make up every byte of the region.
   */
  lemma SilentAnalysisAddsUp(mem: Mem, layout: Layout, libc: U64, threads: seq<Thread>)
    requires mem.TopWordUnmapped() && layout.heapMaxSize > 0
    requires Analyze(mem, layout, libc, threads).Ok? && Analyze(mem, layout, libc, threads).value.problems == []
    ensures ListArenas(mem, layout, libc).Ok?
    ensures var arenas := ListArenas(mem, layout, libc).value.0;
            var reports := Analyze(mem, layout, libc, threads).value.reports;
            && |reports| == |arenas| > 0
            && (forall i :: 0 <= i < |reports| ==>
                  reports[i].index == i && CountsAddUp(reports[i])
                  && HeapBytesAddUp(mem, layout, libc, arenas[i], reports[i]))
            && BytesAddUp(mem, layout, libc, arenas[0], reports[0])
  {
    hide BytesAddUp, CountsAddUp, HeapBytesAddUp, AnalyzeArenas;
    ArenaRing(mem, layout, libc);
    var arenas := ListArenas(mem, layout, libc).value.0;
    var tls := Resolve(mem, layout, libc, MainAddress(layout, libc), threads);
    SilentArenas(mem, layout, libc, threads, tls, arenas);
  }
}
