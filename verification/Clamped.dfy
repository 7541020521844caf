/** A memory for which the report's totals do not add up as documented. */
module Clamped {
  import opened Words
  import opened Memory
  import opened Orbit
  import opened FreeLists
  import opened Arenas
  import opened Stats
  import opened Accounting
  import opened Tls
  import opened Pipeline
  import opened AbstractHeap
  import opened ProcessHeaps
  import opened ProcessWalk
  import opened EndToEnd

  const LIBC: U64 := 0x1_0000

  /** One fastbin, plain links, and neither tcache nor TLS. */
  const PLAIN: Layout :=
    Layout(
      fastbinArrayOffset := 0x10, fastbinCount := 1, topOffset := 0x60, nextOffset := 0x68, sbrkBaseOffset := 0x8,
      heapInfoSize := 0x20, heapInfoPrevOffset := 0x8, heapInfoSizeOffset := 0x10,
      heapInfoMprotectSizeOffset := 0x18, heapMaxSize := 0x400_0000, tcacheMaxBins := 0, tcacheEntriesOffset := 0,
      mainArenaValue := 0x100, mainArenaSize := 0x80, mpValue := 0x300, tcacheValue := 0, threadArena := None,
      tpOffReloc := None, hasTcache := false, hasSafeLinking := false)

  /** One chunk of 32 bytes, in use by its bit. */
  const ONE: Process :=
    Process(
      [Block(0x5008, 32, Live)],
      [Share(0x1_0100, 0, 1, [Run(HeapList.Heap(0x5000, 0x20, 0x20, 0x5008, 0x5028), 0, 1)], [[]])],
      [])

  /** The chunk heads the only fastbin, and its link leads on to a second node, outside the heap. */
  const MEM: Mem :=
    Mem(map[0x5000 := 0, 0x5008 := 0x21, 0x5010 := 0x6000, 0x5028 := 0x21, 0x6010 := 0,
            0x1_0110 := 0x5000, 0x1_0160 := 0x5020, 0x1_0168 := 0, 0x1_0308 := 0x5000],
        map[0x5000 := 0x5000])

  lemma HeapIsSound()
    ensures SoundBlocks(PLAIN, ONE.blocks) && SoundShare(PLAIN, ONE, 0) && HoldsChunk(MEM, ONE.blocks[0])
    ensures MEM.TopWordUnmapped()
  {
    var s := ONE.shares[0];
    assert SoundBlock(PLAIN, ONE.blocks[0]);
    assert InShare(s, 0);
    assert SharesOut(ONE, s);
    forall f: U32 | f < PLAIN.fastbinCount
      ensures Orders(ONE, s.fastOrder[f], Fast(0, f))
    {
      assert s.fastOrder[f] == [];
    }
  }

  lemma HeapIsThere()
    requires SharesOut(ONE, ONE.shares[0])
    ensures HoldsMain(MEM, PLAIN, LIBC, ONE, ONE.shares[0], 0x5000, 0x5020)
  {
    var s := ONE.shares[0];
    assert InShare(s, 0);
    assert RunBlocks(ONE, s.runs[0]) == [Block(0x5008, 32, Live)];
    assert Follows([], 0x5028, 0x5028);
    assert Padding(MEM, 0x5000, 0x5008);
  }

  lemma ChainOfTwo()
    ensures Fastbins(MEM, PLAIN, Arena(0x1_0100, 0), 1).0 == [FastbinResult(0, 24, 2)]
    ensures Fastbins(MEM, PLAIN, Arena(0x1_0100, 0), 1).1 == []
  {
    var links := ChainLinks(MEM, PLAIN, FD_OFFSET);
    assert links(0x5000) == To(0x6000) && links(0x6000) == End;
    assert Follow(links, MAX_CHAIN, 0x6000, [] + [0x5000]) == Trail([] + [0x5000] + [0x6000], Ended);
    assert Follow(links, MAX_CHAIN, 0x5000, []) == Follow(links, MAX_CHAIN, 0x6000, [] + [0x5000]);
    assert FastbinSlot(PLAIN, Arena(0x1_0100, 0), 0) == 0x1_0110;
    assert Fastbins(MEM, PLAIN, Arena(0x1_0100, 0), 0) == ([], []);
  }

  lemma ArenaIsClamped()
    ensures MEM.TopWordUnmapped()
    ensures var outcome := AnalyzeArena(MEM, PLAIN, LIBC, [], TlsInfo(map[], map[], []), Arena(0x1_0100, 0));
            && outcome.Ok?
            && outcome.value.1 == [StatsInconsistent(0, 24)]
            && outcome.value.0.alloc.count == 0
            && outcome.value.0.free.count == 2
            && outcome.value.0.overheadCount == 1
  {
    hide SoundBlocks, SoundShare, HoldsMain, HoldsChunk, Fastbins, Account, HeapList.ListMain, AnalyzeArena, ChunksOf;
    HeapIsSound();
    SharedOut();
    HeapIsThere();
    ChainOfTwo();
    ListsMain(MEM, PLAIN, LIBC, ONE, 0x5000, 0x5020);
    MainIsWalked(MEM, PLAIN, LIBC, ONE, 0x5000, 0x5020);
    var heaps, blocks := HeapsOf(ONE.shares[0].runs), ShareBlocks(ONE, ONE.shares[0]);
    var events := BlockEvents(PLAIN, blocks);
    StatsFill(MEM, PLAIN, LIBC, [], TlsInfo(map[], map[], []), Arena(0x1_0100, 0), heaps, events,
              [FastbinResult(0, 24, 2)]);
    assert events == [events[0]];
    CountsNeedNotAddUp(0, events[0], FastbinResult(0, 24, 2));
  }

  lemma SharedOut()
    requires SoundShare(PLAIN, ONE, 0)
    ensures SharesOut(ONE, ONE.shares[0])
  {
  }

  /** The report of this memory: nothing allocated, two chunks free, of one walked; the inconsistency is reported. */
  lemma ReportNeedNotAddUp()
    ensures MEM.TopWordUnmapped()
    ensures var outcome := Analyze(MEM, PLAIN, LIBC, []);
            && outcome.Ok? && |outcome.value.reports| == 1
            && outcome.value.problems == [StatsInconsistent(0, 24)]
            && outcome.value.reports[0].alloc.count == 0
            && outcome.value.reports[0].free.count == 2
            && outcome.value.reports[0].overheadCount == 1
  {
    hide AnalyzeArena;
    var arena, tls := Arena(0x1_0100, 0), TlsInfo(map[], map[], []);
    ArenaIsClamped();
    assert RingPath(MEM, PLAIN, 0x1_0100, [0x1_0100]);
    RingPathIsListed(MEM, PLAIN, LIBC, [0x1_0100]);
    assert ArenasAt([0x1_0100]) == [arena];
    assert [arena][..0] == [];
    assert AnalyzeArenas(MEM, PLAIN, LIBC, [], tls, []) == Ok(Analysis([], []));
    assert AnalyzeArenas(MEM, PLAIN, LIBC, [], tls, [arena]).value.problems == [] + [StatsInconsistent(0, 24)];
  }
}
