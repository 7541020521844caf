/** Finding the arenas and heaps of a process in memory. */
module ProcessHeaps {
  import opened Words
  import opened Memory
  import opened ChunkBits
  import opened Arenas
  import opened HeapList
  import opened AbstractHeap

  lemma ListsArenas(mem: Mem, layout: Layout, libc: U64, p: Process)
    requires 0 < |p.shares| < MAX_ARENAS && RingPath(mem, layout, p.shares[0].address, AbstractHeap.Addresses(p))
    requires p.shares[0].address == (libc + layout.mainArenaValue) % TWO64
    requires mem.Read((p.shares[0].address + layout.topOffset) % TWO64).Some?
    ensures ListArenas(mem, layout, libc) == Ok((ArenasAt(AbstractHeap.Addresses(p)), []))
  {
    hide RingPath, ListArenas;
    RingPathIsListed(mem, layout, libc, AbstractHeap.Addresses(p));
  }

  // ----- The regions -----

  lemma {:induction false} PaddingSkipped(mem: Mem, at: U64, start: U64, end: U64)
    requires mem.TopWordUnmapped() && Padding(mem, at, start)
    requires start <= end && (start < end ==> mem.Read(start) != Some(0))
    ensures SkipZeroPadding(mem, at, end) == start
    decreases start - at
  {
    if at < start {
      assert mem.Read(at) == Some(0);
      forall a: U64 | at + 8 <= a < start && (a - (at + 8)) % 8 == 0
        ensures mem.Read(a) == Some(0)
      {
        assert (a - at) % 8 == 0;
      }
      PaddingSkipped(mem, at + 8, start, end);
    }
  }

  lemma {:induction false} FollowsOn(layout: Layout, blocks: seq<Block>, start: int, stop: int)
    requires Follows(blocks, start, stop) && forall i :: 0 <= i < |blocks| ==> SoundBlock(layout, blocks[i])
    ensures start + 32 * |blocks| <= stop
    ensures blocks != [] ==>
              blocks[0].at == start && blocks[|blocks| - 1].at + blocks[|blocks| - 1].size == stop
    decreases |blocks|
  {
    if blocks != [] {
      assert SoundBlock(layout, blocks[0]);
      FollowsOn(layout, blocks[1..], start + blocks[0].size, stop);
    }
  }

  /** A heap's region starts with a size field, unless it is empty. */
  lemma RegionStarts(mem: Mem, layout: Layout, p: Process, run: Run)
    requires run.from <= run.to <= |p.blocks| && SoundBlocks(layout, p.blocks)
    requires forall i :: 0 <= i < |p.blocks| ==> HoldsChunk(mem, p.blocks[i])
    requires Follows(RunBlocks(p, run), run.heap.regionStart, StopOf(p, run))
    requires StopOf(p, run) == run.heap.regionEnd || ClosedByBridge(mem, p, run)
    ensures run.heap.regionStart <= StopOf(p, run) <= run.heap.regionEnd
    ensures run.heap.regionStart < run.heap.regionEnd ==> mem.Read(run.heap.regionStart) != Some(0)
  {
    hide ChunkSize, PrevInUse, NonMainArena;
    var blocks := RunBlocks(p, run);
    FollowsOn(layout, blocks, run.heap.regionStart, StopOf(p, run));
    ZeroHasNoSize();
    if blocks != [] {
      assert HoldsChunk(mem, p.blocks[run.from]) && SoundBlock(layout, p.blocks[run.from]);
    }
  }

  lemma ZeroHasNoSize()
    ensures ChunkSize(0) == 0
  {
  }

  lemma ListsMain(
      mem: Mem, layout: Layout, libc: U64, p: Process, base: U64, top: U64)
    requires mem.TopWordUnmapped() && layout.heapMaxSize > 0
    requires |p.shares| > 0 && SoundShare(layout, p, 0) && SoundBlocks(layout, p.blocks)
    requires HoldsMain(mem, layout, libc, p, p.shares[0], base, top)
    requires forall i :: 0 <= i < |p.blocks| ==> HoldsChunk(mem, p.blocks[i])
    ensures ListMain(mem, layout, libc, Arena(p.shares[0].address, 0)) == Ok((HeapsOf(p.shares[0].runs), []))
  {
    hide SkipZeroPadding, HoldsChunk, SoundBlock, Disjoint, Padding, Orders;
    var s := p.shares[0];
    SlotOfMp(layout, libc);
    if s.runs != [] {
      assert InShare(s, 0);
      var run := s.runs[0];
      FollowsOn(layout, RunBlocks(p, run), run.heap.regionStart, run.heap.regionEnd);
      RegionStarts(mem, layout, p, run);
      PaddingSkipped(mem, run.heap.address, run.heap.regionStart, run.heap.regionEnd);
      assert HeapsOf(s.runs) == [run.heap];
    } else {
      assert HeapsOf(s.runs) == [];
    }
  }

  lemma SlotOfMp(layout: Layout, libc: U64)
    ensures WrappingAdd(WrappingAdd(libc, layout.mpValue), layout.sbrkBaseOffset)
         == (libc + layout.mpValue + layout.sbrkBaseOffset) % TWO64
  {
  }

  /** Heap `k` of a secondary arena is what the listing finds at its address. */
  lemma HeapIsFound(mem: Mem, layout: Layout, p: Process, s: Share, k: nat, top: U64, topHeap: U64)
    requires mem.TopWordUnmapped() && layout.heapMaxSize > 0 && k < |s.runs|
    requires SharesOut(p, s) && SoundBlocks(layout, p.blocks)
    requires HoldsHeap(mem, layout, p, s, k, top)
    requires s.runs[0].heap.address == topHeap && (k > 0 ==> s.runs[k].heap.address != topHeap)
    requires forall i :: 0 <= i < |p.blocks| ==> HoldsChunk(mem, p.blocks[i])
    ensures SecondaryHeap(mem, layout, top, topHeap, s.runs[k].heap.address) == Some(s.runs[k].heap)
    ensures var info := ReadHeapInfo(mem, layout, s.runs[k].heap.address);
            info.Ok? && info.value.prev == if k == |s.runs| - 1 then 0 else s.runs[k + 1].heap.address
  {
    hide SkipZeroPadding, HoldsChunk, SoundBlock, BridgeWords, LastIsListed, InfoWords, ReadHeapInfo, FirstChunkSearchStart;
    assert InShare(s, k);
    var run, oldest := s.runs[k], k == |s.runs| - 1;
    var prev := if oldest then 0 else s.runs[k + 1].heap.address;
    var info := HeapInfo(run.heap.size, run.heap.mprotectSize, prev);
    InfoIsWords(mem, layout, run.heap.address, info);
    SearchStart(layout, run.heap.address, info);
    RegionStarts(mem, layout, p, run);
    PaddingSkipped(mem, FirstChunkSearchStart(layout, run.heap.address, info), run.heap.regionStart,
                   run.heap.regionEnd);
  }

  lemma {:induction false} OlderLists(
      mem: Mem, layout: Layout, p: Process, s: Share, k: nat, top: U64, topHeap: U64, arena: U32)
    requires mem.TopWordUnmapped() && layout.heapMaxSize > 0 && k < |s.runs|
    requires SharesOut(p, s) && SoundBlocks(layout, p.blocks)
    requires forall j :: 0 <= j < |s.runs| ==> HoldsHeap(mem, layout, p, s, j, top)
    requires forall i, j :: 0 <= i < j < |s.runs| ==> s.runs[i].heap.address != s.runs[j].heap.address
    requires s.runs[0].heap.address == topHeap
    requires forall i :: 0 <= i < |p.blocks| ==> HoldsChunk(mem, p.blocks[i])
    ensures Older(mem, layout, arena, top, topHeap, s.runs[k].heap.address, HeapsOf(s.runs[..k]))
         == (HeapsOf(s.runs), [])
    decreases |s.runs| - k
  {
    hide HoldsChunk, SoundBlocks, ReadHeapInfo, SecondaryHeap;
    var found := HeapsOf(s.runs[..k]);
    assert HoldsHeap(mem, layout, p, s, k, top);
    HeapIsFound(mem, layout, p, s, k, top, topHeap);
    assert s.runs[k].heap.address !in HeapList.Addresses(found);
    assert found + [s.runs[k].heap] == HeapsOf(s.runs[..k + 1]);
    if k < |s.runs| - 1 {
      OlderLists(mem, layout, p, s, k + 1, top, topHeap, arena);
    } else {
      assert s.runs[..k + 1] == s.runs;
    }
  }

  lemma ListsSecondary(mem: Mem, layout: Layout, p: Process, a: nat, top: U64)
    requires mem.TopWordUnmapped() && layout.heapMaxSize > 0
    requires a < |p.shares| < MAX_ARENAS && SoundShare(layout, p, a) && SoundBlocks(layout, p.blocks)
    requires HoldsSecondary(mem, layout, p, p.shares[a], top)
    requires forall i :: 0 <= i < |p.blocks| ==> HoldsChunk(mem, p.blocks[i])
    ensures ListSecondary(mem, layout, Arena(p.shares[a].address, a)) == Ok((HeapsOf(p.shares[a].runs), []))
  {
    hide HoldsChunk, SoundBlocks, ReadHeapInfo, Older, ToHeapStart, HoldsHeap;
    var s := p.shares[a];
    if s.runs == [] {
      assert HeapsOf(s.runs) == [];
    } else {
      var topHeap := s.runs[0].heap.address;
      assert HoldsHeap(mem, layout, p, s, 0, top);
      HeapIsFound(mem, layout, p, s, 0, top, topHeap);
      OlderLists(mem, layout, p, s, 0, top, topHeap, a);
      assert HeapsOf(s.runs[..0]) == [];
    }
  }
}
