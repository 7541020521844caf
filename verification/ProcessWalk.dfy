/** Walking the chunks of a process in memory. */
module ProcessWalk {
  import opened Words
  import opened Memory
  import opened ChunkBits
  import opened Arenas
  import opened ChunkWalk
  import opened WalkRoundTrip
  import opened Pipeline
  import opened AbstractHeap
  import opened ProcessHeaps

  function EventOf(b: Block): ChunkEvent
    requires b.at + b.size < TWO64 && b.size >= 32
  {
    ChunkEvent(b.at, b.at + 8, b.size - 8, b.size, !b.fate.Free?)
  }

  /** The event of each chunk. */
  ghost function BlockEvents(layout: Layout, blocks: seq<Block>): (events: seq<ChunkEvent>)
    requires SoundBlocks(layout, blocks)
    ensures |events| == |blocks|
    ensures forall i :: 0 <= i < |events| ==> SoundBlock(layout, blocks[i]) && events[i] == EventOf(blocks[i])
  {
    seq(|blocks|, i requires 0 <= i < |blocks| => assert SoundBlock(layout, blocks[i]); EventOf(blocks[i]))
  }

  lemma SomeAreSound(layout: Layout, blocks: seq<Block>, from: nat, to: nat)
    requires SoundBlocks(layout, blocks) && from <= to <= |blocks|
    ensures SoundBlocks(layout, blocks[from..to])
  {
    hide SoundBlock, Disjoint;
    var some := blocks[from..to];
    forall i | 0 <= i < |some|
      ensures SoundBlock(layout, some[i])
    {
      assert some[i] == blocks[from + i];
    }
    forall i, j | 0 <= i < j < |some|
      ensures Disjoint(some[i], some[j])
    {
      assert some[i] == blocks[from + i] && some[j] == blocks[from + j];
    }
  }

  lemma EventsConcat(layout: Layout, blocks: seq<Block>, from: nat, mid: nat, to: nat)
    requires SoundBlocks(layout, blocks) && from <= mid <= to <= |blocks|
    ensures SoundBlocks(layout, blocks[from..mid]) && SoundBlocks(layout, blocks[mid..to])
    ensures SoundBlocks(layout, blocks[from..to])
    ensures BlockEvents(layout, blocks[from..to])
         == BlockEvents(layout, blocks[from..mid]) + BlockEvents(layout, blocks[mid..to])
  {
    SomeAreSound(layout, blocks, from, mid);
    SomeAreSound(layout, blocks, mid, to);
    SomeAreSound(layout, blocks, from, to);
    hide SoundBlocks;
    assert blocks[from..to] == blocks[from..mid] + blocks[mid..to];
  }

  // ----- One heap -----

  /** The size fields of chunks that follow one another, and of what comes after them, as a list. */
  lemma {:induction false} HeadersOf(mem: Mem, layout: Layout, blocks: seq<Block>, start: U64, stop: U64)
    returns (headers: seq<U64>)
    requires SoundBlocks(layout, blocks) && Follows(blocks, start, stop)
    requires forall i :: 0 <= i < |blocks| ==> HoldsChunk(mem, blocks[i])
    requires mem.Read(stop).Some?
    ensures ValidHeaders(start, headers, stop) && Holds(mem, start, headers)
    ensures |headers| == |blocks| + 1 && mem.Read(stop) == Some(headers[|blocks|])
    ensures ListedChunks(start, headers, stop) == BlockEvents(layout, blocks)
    ensures blocks != [] ==> mem.Read(blocks[|blocks| - 1].at) == Some(headers[|blocks| - 1])
    decreases |blocks|
  {
    hide ChunkSize, PrevInUse, SoundBlocks, ValidHeaders, Holds, ListedChunks;
    if blocks == [] {
      headers := [mem.Read(stop).value];
      LastHeader(mem, layout, stop);
    } else {
      FirstBlock(mem, layout, blocks);
      var rest := blocks[1..];
      var next := start + blocks[0].size;
      FollowsOn(layout, rest, next, stop);
      var tail := HeadersOf(mem, layout, rest, next, stop);
      HoldsStart(mem, next, tail);
      headers := [mem.Read(start).value] + tail;
      ConsHeader(mem, start, headers[0], tail, stop);
      EventsCons(layout, blocks);
      assert rest != [] ==> blocks[|blocks| - 1] == rest[|rest| - 1];
    }
  }

  lemma LastHeader(mem: Mem, layout: Layout, stop: U64)
    requires mem.Read(stop).Some?
    ensures ValidHeaders(stop, [mem.Read(stop).value], stop) && Holds(mem, stop, [mem.Read(stop).value])
    ensures SoundBlocks(layout, [])
    ensures ListedChunks(stop, [mem.Read(stop).value], stop) == BlockEvents(layout, [])
  {
    hide ChunkSize, PrevInUse;
    var headers := [mem.Read(stop).value];
    assert Holds(mem, stop + ChunkSize(headers[0]), headers[1..]);
  }

  /** A size field before a list of them, where its size puts it. */
  lemma ConsHeader(mem: Mem, start: U64, header: U64, tail: seq<U64>, stop: U64)
    requires start + ChunkSize(header) < TWO64 && ChunkSize(header) >= 16 && ChunkSize(header) % 16 == 0
    requires mem.Read(start) == Some(header) && tail != []
    requires ValidHeaders(start + ChunkSize(header), tail, stop) && Holds(mem, start + ChunkSize(header), tail)
    ensures ValidHeaders(start, [header] + tail, stop) && Holds(mem, start, [header] + tail)
    ensures var size := ChunkSize(header);
            ListedChunks(start, [header] + tail, stop)
            == [ChunkEvent(start, start + 8, size - 8, size, PrevInUse(tail[0]))] + ListedChunks(start + size, tail, stop)
  {
    hide ChunkSize, PrevInUse;
    assert ([header] + tail)[1..] == tail;
  }

  lemma EventsCons(layout: Layout, blocks: seq<Block>)
    requires SoundBlocks(layout, blocks) && blocks != []
    ensures SoundBlock(layout, blocks[0]) && SoundBlocks(layout, blocks[1..])
    ensures BlockEvents(layout, blocks) == [EventOf(blocks[0])] + BlockEvents(layout, blocks[1..])
  {
    SomeAreSound(layout, blocks, 1, |blocks|);
    assert blocks[1..|blocks|] == blocks[1..];
  }

  lemma HoldsStart(mem: Mem, start: int, headers: seq<U64>)
    requires Holds(mem, start, headers) && headers != []
    ensures 0 <= start < TWO64 && mem.Read(start) == Some(headers[0])
  {
  }

  lemma FirstBlock(mem: Mem, layout: Layout, blocks: seq<Block>)
    requires SoundBlocks(layout, blocks) && blocks != []
    requires forall i :: 0 <= i < |blocks| ==> HoldsChunk(mem, blocks[i])
    ensures SoundBlock(layout, blocks[0]) && HoldsChunk(mem, blocks[0]) && SoundBlocks(layout, blocks[1..])
    ensures forall i :: 0 <= i < |blocks[1..]| ==> HoldsChunk(mem, blocks[1..][i])
    ensures forall i :: 0 <= i < |blocks[1..]| ==> SoundBlock(layout, blocks[1..][i])
  {
    hide HoldsChunk, SoundBlock, Disjoint;
    SomeAreSound(layout, blocks, 1, |blocks|);
    assert blocks[1..|blocks|] == blocks[1..];
    forall i | 0 <= i < |blocks[1..]|
      ensures HoldsChunk(mem, blocks[1..][i])
    {
      assert blocks[1..][i] == blocks[i + 1];
    }
  }

  /** The chunks of a heap that ends at the region's end are what its walk gives. */
  lemma TopHeapIsWalked(mem: Mem, layout: Layout, arena: U32, blocks: seq<Block>, start: U64, end: U64, main: bool)
    requires SoundBlocks(layout, blocks) && Follows(blocks, start, end) && |blocks| <= MAX_CHUNKS
    requires forall i :: 0 <= i < |blocks| ==> HoldsChunk(mem, blocks[i])
    ensures Walk(mem, arena, start, end, main).0 == BlockEvents(layout, blocks)
    ensures Walk(mem, arena, start, end, main).1 == []
  {
    if blocks != [] {
      hide SoundBlocks, Walk, ListedChunks;
      AllSound(layout, blocks);
      FollowsOn(layout, blocks, start, end);
      assert HoldsChunk(mem, blocks[|blocks| - 1]);
      var headers := HeadersOf(mem, layout, blocks, start, end);
      RegionRoundTrip(mem, arena, start, headers, end, main);
    }
  }

  lemma AllSound(layout: Layout, blocks: seq<Block>)
    requires SoundBlocks(layout, blocks)
    ensures forall i :: 0 <= i < |blocks| ==> SoundBlock(layout, blocks[i])
  {
  }

  /** So are those of a heap closed by a bridge. */
  lemma BridgedHeapIsWalked(mem: Mem, layout: Layout, arena: U32, p: Process, run: Run)
    requires run.from <= run.to <= |p.blocks| && run.to - run.from < MAX_CHUNKS
    requires SoundBlocks(layout, p.blocks) && Follows(RunBlocks(p, run), run.heap.regionStart, StopOf(p, run))
    requires forall i :: 0 <= i < |p.blocks| ==> HoldsChunk(mem, p.blocks[i])
    requires ClosedByBridge(mem, p, run)
    ensures SoundBlocks(layout, RunBlocks(p, run))
    ensures Walk(mem, arena, run.heap.regionStart, run.heap.regionEnd, false).0
         == BlockEvents(layout, RunBlocks(p, run))
    ensures Walk(mem, arena, run.heap.regionStart, run.heap.regionEnd, false).1 == []
  {
    hide SoundBlocks, Walk, ListedChunks, ChunkSize, NonMainArena, PrevInUse, HoldsChunk;
    var blocks, stop := RunBlocks(p, run), StopOf(p, run);
    SomeAreSound(layout, p.blocks, run.from, run.to);
    var headers := HeadersOf(mem, layout, blocks, run.heap.regionStart, stop);
    var bridge := headers[|blocks|];
    var fence := mem.Read(stop + ChunkSize(bridge)).value;
    BridgedHeapRoundTrip(mem, arena, run.heap.regionStart, headers, stop, fence, run.heap.regionEnd);
  }

  // ----- The heaps of an arena -----

  lemma {:induction false} RunsAreWalked(mem: Mem, layout: Layout, p: Process, a: nat, top: U64, k: nat)
    requires 0 < a < |p.shares| < MAX_ARENAS && SoundShare(layout, p, a) && SoundBlocks(layout, p.blocks)
    requires k <= |p.shares[a].runs|
    requires forall j :: 0 <= j < |p.shares[a].runs| ==> HoldsHeap(mem, layout, p, p.shares[a], j, top)
    requires forall i :: 0 <= i < |p.blocks| ==> HoldsChunk(mem, p.blocks[i])
    ensures var s := p.shares[a];
            var to := if k == 0 then s.from else s.runs[k - 1].to;
            && s.from <= to <= s.to
            && SoundBlocks(layout, p.blocks[s.from..to])
            && ChunksOf(mem, Arena(s.address, a), HeapsOf(s.runs[..k])).0
               == BlockEvents(layout, p.blocks[s.from..to])
            && ChunksOf(mem, Arena(s.address, a), HeapsOf(s.runs[..k])).1 == []
    decreases k
  {
    hide HoldsChunk, SoundBlocks, Walk, BridgeWords, LastIsListed, SoundBlock, HeapList.InfoWords;
    var s := p.shares[a];
    var arena := Arena(s.address, a);
    if k == 0 {
      SomeAreSound(layout, p.blocks, s.from, s.from);
      assert BlockEvents(layout, p.blocks[s.from..s.from]) == [];
      assert HeapsOf(s.runs[..0]) == [];
      assert ChunksOf(mem, arena, []) == ([], []);
    } else {
      var run := s.runs[k - 1];
      assert InShare(s, k - 1) && HoldsHeap(mem, layout, p, s, k - 1, top);
      RunsAreWalked(mem, layout, p, a, top, k - 1);
      RunIsWalked(mem, layout, p, s, k - 1, top, a);
      HeapsSnoc(s.runs, k - 1);
      EventsConcat(layout, p.blocks, s.from, run.from, run.to);
      ChunksSnoc(mem, arena, HeapsOf(s.runs[..k - 1]), run.heap);
    }
  }

  lemma HeapsSnoc(runs: seq<Run>, k: nat)
    requires k < |runs|
    ensures HeapsOf(runs[..k + 1]) == HeapsOf(runs[..k]) + [runs[k].heap]
  {
  }

  lemma ChunksSnoc(mem: Mem, arena: Arena, heaps: seq<HeapList.Heap>, h: HeapList.Heap)
    ensures var walked := Walk(mem, arena.index, h.regionStart, h.regionEnd, arena.IsMain());
            && ChunksOf(mem, arena, heaps + [h]).0 == ChunksOf(mem, arena, heaps).0 + walked.0
            && ChunksOf(mem, arena, heaps + [h]).1 == ChunksOf(mem, arena, heaps).1 + walked.1
  {
    hide Walk;
    assert (heaps + [h])[..|heaps|] == heaps;
  }

  lemma RunIsWalked(mem: Mem, layout: Layout, p: Process, s: Share, k: nat, top: U64, arena: U32)
    requires SharesOut(p, s) && k < |s.runs| && SoundBlocks(layout, p.blocks)
    requires HoldsHeap(mem, layout, p, s, k, top)
    requires forall i :: 0 <= i < |p.blocks| ==> HoldsChunk(mem, p.blocks[i])
    ensures InShare(s, k) && SoundBlocks(layout, RunBlocks(p, s.runs[k]))
    ensures var h := s.runs[k].heap;
            && Walk(mem, arena, h.regionStart, h.regionEnd, false).0 == BlockEvents(layout, RunBlocks(p, s.runs[k]))
            && Walk(mem, arena, h.regionStart, h.regionEnd, false).1 == []
  {
    hide HoldsChunk, SoundBlocks, Walk, BridgeWords, LastIsListed, HeapList.InfoWords;
    assert InShare(s, k);
    var run := s.runs[k];
    SomeAreSound(layout, p.blocks, run.from, run.to);
    if k == 0 {
      RunHolds(mem, p, run);
      TopHeapIsWalked(mem, layout, arena, RunBlocks(p, run), run.heap.regionStart, run.heap.regionEnd, false);
    } else {
      BridgedHeapIsWalked(mem, layout, arena, p, run);
    }
  }

  lemma RunHolds(mem: Mem, p: Process, run: Run)
    requires run.from <= run.to <= |p.blocks|
    requires forall i :: 0 <= i < |p.blocks| ==> HoldsChunk(mem, p.blocks[i])
    ensures forall i :: 0 <= i < |RunBlocks(p, run)| ==> HoldsChunk(mem, RunBlocks(p, run)[i])
  {
    hide HoldsChunk;
    forall i | 0 <= i < |RunBlocks(p, run)|
      ensures HoldsChunk(mem, RunBlocks(p, run)[i])
    {
      assert RunBlocks(p, run)[i] == p.blocks[run.from + i];
    }
  }

  /** The chunks of a secondary arena, heap after heap, are what its walks give. */
  lemma SecondaryIsWalked(mem: Mem, layout: Layout, p: Process, a: nat, top: U64)
    requires 0 < a < |p.shares| < MAX_ARENAS && SoundShare(layout, p, a) && SoundBlocks(layout, p.blocks)
    requires forall j :: 0 <= j < |p.shares[a].runs| ==> HoldsHeap(mem, layout, p, p.shares[a], j, top)
    requires forall i :: 0 <= i < |p.blocks| ==> HoldsChunk(mem, p.blocks[i])
    ensures var s := p.shares[a];
            && SoundBlocks(layout, ShareBlocks(p, s))
            && ChunksOf(mem, Arena(s.address, a), HeapsOf(s.runs)).0 == BlockEvents(layout, ShareBlocks(p, s))
            && ChunksOf(mem, Arena(s.address, a), HeapsOf(s.runs)).1 == []
  {
    hide HoldsChunk, SoundBlocks, HoldsHeap, ChunksOf;
    var s := p.shares[a];
    RunsAreWalked(mem, layout, p, a, top, |s.runs|);
    assert s.runs[..|s.runs|] == s.runs;
  }

  /** So are those of the main arena. */
  lemma MainIsWalked(mem: Mem, layout: Layout, libc: U64, p: Process, base: U64, top: U64)
    requires |p.shares| > 0 && SoundShare(layout, p, 0) && SoundBlocks(layout, p.blocks)
    requires HoldsMain(mem, layout, libc, p, p.shares[0], base, top)
    requires forall i :: 0 <= i < |p.blocks| ==> HoldsChunk(mem, p.blocks[i])
    ensures var s := p.shares[0];
            && SoundBlocks(layout, ShareBlocks(p, s))
            && ChunksOf(mem, Arena(s.address, 0), HeapsOf(s.runs)).0 == BlockEvents(layout, ShareBlocks(p, s))
            && ChunksOf(mem, Arena(s.address, 0), HeapsOf(s.runs)).1 == []
  {
    hide HoldsChunk, SoundBlocks, Walk;
    var s := p.shares[0];
    var arena := Arena(s.address, 0);
    SomeAreSound(layout, p.blocks, s.from, s.to);
    assert ChunksOf(mem, arena, []) == ([], []);
    if s.runs == [] {
      assert ShareBlocks(p, s) == [] && HeapsOf(s.runs) == [];
    } else {
      assert InShare(s, 0);
      var run := s.runs[0];
      RunHolds(mem, p, run);
      TopHeapIsWalked(mem, layout, 0, RunBlocks(p, run), run.heap.regionStart, run.heap.regionEnd, true);
      assert HeapsOf(s.runs) == [] + [run.heap];
      ChunksSnoc(mem, arena, [], run.heap);
    }
  }
}
