/** A process with a second arena, whose one chunk is in a tcache. */
module TwoArenas {
  import opened Words
  import opened Memory
  import opened FreeLists
  import opened Arenas
  import opened Sums
  import opened Stats
  import opened Report
  import opened Tls
  import opened Pipeline
  import opened AbstractHeap
  import opened EndToEnd

  const LIBC: U64 := 0x1_0000

  /** One fastbin, one tcache bin, plain links. */
  const LAYOUT: Layout :=
    Layout(
      fastbinArrayOffset := 0x10, fastbinCount := 1, topOffset := 0x60, nextOffset := 0x68, sbrkBaseOffset := 0x8,
      heapInfoSize := 0x20, heapInfoPrevOffset := 0x8, heapInfoSizeOffset := 0x10,
      heapInfoMprotectSizeOffset := 0x18, heapMaxSize := 0x400_0000, tcacheMaxBins := 1, tcacheEntriesOffset := 0x80,
      mainArenaValue := 0x100, mainArenaSize := 0x80, mpValue := 0x300, tcacheValue := 0x10, threadArena := Some(0x18),
      tpOffReloc := Some(0x400), hasTcache := true, hasSafeLinking := false)

  const THREAD: Thread := Thread(0, 0, 0x7000, 2)

  const BLOCK: Block := Block(0x400_00A8, 32, Cached(0, 0))

  const HEAP: HeapList.Heap := HeapList.Heap(0x400_0000, 0x21000, 0x21000, 0x400_00A8, 0x400_00C8)

  /** The main arena is untouched; the chunk of the other, behind its embedded malloc_state, is the thread's. */
  const TWO: Process :=
    Process(
      [BLOCK],
      [Share(0x1_0100, 0, 0, [], [[]]), Share(0x400_0020, 0, 1, [Run(HEAP, 0, 1)], [[]])],
      [[[0]]])

  const MEM: Mem :=
    Mem(map[
          // mp_, main arena, relocation
          0x1_0308 := 0, 0x1_0160 := 0, 0x1_0168 := 0x400_0020, 0x1_0110 := 0, 0x1_0400 := 0,
          // heap_info, the other arena, its chunk and top
          0x400_0008 := 0, 0x400_0010 := 0x21000, 0x400_0018 := 0x21000,
          0x400_0030 := 0, 0x400_0080 := 0x400_00C0, 0x400_0088 := 0x1_0100,
          0x400_00A0 := 0, 0x400_00A8 := 0x25, 0x400_00B0 := 0, 0x400_00C8 := 0x25,
          // the thread's variables and its tcache
          0x7010 := 0x8000, 0x7018 := 0x400_0020, 0x8080 := 0x400_00B0],
        map[])

  lemma BlocksAreSound()
    ensures SoundBlocks(LAYOUT, TWO.blocks) && HoldsChunk(MEM, BLOCK)
  {
    assert SoundBlock(LAYOUT, BLOCK);
  }

  lemma SharesAreSound()
    ensures SoundShare(LAYOUT, TWO, 0) && SoundShare(LAYOUT, TWO, 1)
  {
    assert InShare(TWO.shares[1], 0);
    assert SharesOut(TWO, TWO.shares[0]) && SharesOut(TWO, TWO.shares[1]);
    assert Orders(TWO, [], Fast(0, 0)) && Orders(TWO, [], Fast(1, 0));
  }

  lemma IsWellFormed()
    ensures WellFormed(LAYOUT, 1, TWO)
  {
    hide SoundBlocks, SoundShare;
    BlocksAreSound();
    SharesAreSound();
    assert Orders(TWO, [0], Cached(0, 0));
  }

  lemma MainIsThere()
    requires SoundShare(LAYOUT, TWO, 0)
    ensures HoldsShare(MEM, LAYOUT, LIBC, TWO, 0)
  {
    hide HoldsFastbin;
    FastbinIsThere(0x1_0100);
    assert HoldsMain(MEM, LAYOUT, LIBC, TWO, TWO.shares[0], 0, 0);
  }

  lemma SecondaryIsThere()
    requires SoundShare(LAYOUT, TWO, 1)
    ensures HoldsShare(MEM, LAYOUT, LIBC, TWO, 1)
  {
    hide HeapFrame, TopWords, HoldsFastbin;
    var s := TWO.shares[1];
    assert InShare(s, 0);
    HeapIsThere(s);
    TopIsThere(s);
    FastbinIsThere(0x400_0020);
    assert HoldsHeap(MEM, LAYOUT, TWO, s, 0, 0x400_00C0);
    assert HoldsSecondary(MEM, LAYOUT, TWO, s, 0x400_00C0);
  }

  lemma FastbinIsThere(arena: U64)
    requires arena == 0x1_0100 || arena == 0x400_0020
    ensures HoldsFastbin(MEM, LAYOUT, TWO, arena, [], 0)
  {
    assert ChunkPointers(TWO, []) == [];
    assert FastbinHead(MEM, LAYOUT, TWO, arena, [], 0);
  }

  lemma TopIsThere(s: Share)
    requires s == TWO.shares[1]
    ensures TopWords(MEM, LAYOUT, s, 0x400_00C0)
  {
    Bits.Pow2Sum(20, 6);
    Powers();
    HeapList.HeapStartIsBlock(0x400_00C0, 26);
  }

  lemma Powers()
    ensures Bits.Pow2(26) == 0x400_0000
  {
    assert Bits.Pow2(4) == 16;
    Bits.Pow2Sum(4, 4);
    Bits.Pow2Sum(8, 8);
    Bits.Pow2Sum(16, 8);
    assert Bits.Pow2(26) == 2 * (2 * Bits.Pow2(24));
  }

  lemma HeapIsThere(s: Share)
    requires s == TWO.shares[1] && SharesOut(TWO, s)
    ensures HeapFrame(MEM, LAYOUT, TWO, s, 0, 0x400_00C0)
  {
    assert InShare(s, 0);
    assert RunBlocks(TWO, s.runs[0]) == [BLOCK];
    assert Follows([], 0x400_00C8, 0x400_00C8);
    assert Follows([BLOCK], 0x400_00A8, 0x400_00C8);
    assert Padding(MEM, 0x400_00A0, 0x400_00A8);
  }

  lemma ThreadIsThere()
    ensures HoldsThread(MEM, LAYOUT, LIBC, THREAD, TWO, 0)
  {
    assert TlsWord(MEM, LAYOUT, LIBC, 0x7000, 0x18, 0x400_0020);
    assert TlsWord(MEM, LAYOUT, LIBC, 0x7000, 0x10, 0x8000);
    assert Users(TWO, [0]) == [0x400_00B0];
    assert StoredLink(MEM, LAYOUT, 0x400_00B0, 0);
    assert StoresChain(MEM, LAYOUT, 0, [0x400_00B0]);
    assert HoldsTcacheBin(MEM, LAYOUT, TWO, 0x8000, [0], 0);
    assert HoldsTcache(MEM, LAYOUT, TWO, 0x8000, 0);
  }

  lemma RingIsThere()
    ensures RingPath(MEM, LAYOUT, 0x1_0100, Addresses(TWO))
  {
    var path := Addresses(TWO);
    assert path == [0x1_0100, 0x400_0020];
    assert RingStep(MEM, LAYOUT, 0x1_0100, path, 0);
  }

  lemma IsRepresented()
    ensures Represents(MEM, LAYOUT, LIBC, [THREAD], TWO)
  {
    hide WellFormed, SoundShare, HoldsShare, HoldsThread, HoldsChunk, RingPath;
    IsWellFormed();
    SharesAreSound();
    BlocksAreSound();
    MainIsThere();
    SecondaryIsThere();
    ThreadIsThere();
    RingIsThere();
  }

  /** The second arena reports no chunk allocated and one free, in bin 0 of thread 2's tcache, and nothing amiss. */
  lemma SecondArenaReportsTheTcache()
    ensures MEM.TopWordUnmapped()
    ensures var outcome := Analyze(MEM, LAYOUT, LIBC, [THREAD]);
            && outcome.Ok? && outcome.value.problems == [] && |outcome.value.reports| == 2
            && var r := outcome.value.reports[1];
               && r.alloc.count == 0 && r.free.count == 1 && r.free.bytes == 24
               && r.tcacheBins == [BinTally(0, 24, 1, 24)]
               && r.tcacheThreads == {2}
  {
    hide Represents, WellFormed, Analyze;
    IsRepresented();
    Basics(MEM, LAYOUT, LIBC, [THREAD], TWO);
    EndToEnd.EndToEnd(MEM, LAYOUT, LIBC, [THREAD], TWO);
    OneCached(Analyze(MEM, LAYOUT, LIBC, [THREAD]).value.reports[1]);
  }

  lemma SecondIsLater(bins: seq<BinTally>)
    requires forall i, j :: 0 <= i < j < |bins| ==> bins[i].index < bins[j].index
    ensures |bins| > 1 ==> bins[1].index > 0
  {
    assert |bins| > 1 ==> bins[0].index < bins[1].index;
  }

  lemma OneCached(r: ArenaReport)
    requires WellFormed(LAYOUT, 1, TWO) && SoundShare(LAYOUT, TWO, 1)
    requires ReportsShare(LAYOUT, [THREAD], TWO, 1, r)
    ensures r.alloc.count == 0 && r.free.count == 1 && r.free.bytes == 24
    ensures r.tcacheBins == [BinTally(0, 24, 1, 24)] && r.tcacheThreads == {2}
  {
    hide WellFormed, SoundShare;
    var blocks := ShareBlocks(TWO, TWO.shares[1]);
    assert blocks == [BLOCK];
    forall f: Block -> nat
      ensures Sum([BLOCK], f) == f(BLOCK)
    {
      assert [BLOCK][..0] == [];
    }
    forall bin: U32
      ensures Sum(blocks, InTcacheBin(bin)) == if bin == 0 then 1 else 0
    {
    }
    var bins := r.tcacheBins;
    SecondIsLater(bins);
    assert Sum(blocks, InTcacheBin(0)) > 0;
    assert |bins| > 0;
    forall j | 0 <= j < |bins|
      ensures bins[j].index == 0
    {
      assert Sum(blocks, InTcacheBin(bins[j].index)) > 0;
    }
    assert bins[0] == BinTally(0, 24, 1, 24);
    forall id: I32
      ensures id in r.tcacheThreads <==> id == 2
    {
      assert blocks[0] == BLOCK;
    }
  }
}
