/** A process's heap as its user sees it, over all arenas, and what it means for memory to hold it. */
module AbstractHeap {
  import opened Words
  import opened Memory
  import opened ChunkBits
  import opened Orbit
  import opened FreeLists
  import opened Arenas
  import opened ChunkWalk
  import opened Sums
  import opened Stats
  import opened Tls
  import opened Report

  /** What became of a chunk: live, free, in a fastbin of its arena, or in some thread's tcache bin. */
  datatype Fate = Live | Free | Fast(arena: nat, fastbin: U32) | Cached(thread: nat, bin: U32)

  /** A chunk: where its size field is, its size, and its fate. */
  datatype Block = Block(at: U64, size: U64, fate: Fate)

  /** A heap of an arena, and the chunks in its region: those from `from` to before `to`. */
  datatype Run = Run(heap: HeapList.Heap, from: nat, to: nat)

  /** An arena: its malloc_state, its chunks, its heaps from the newest on, and the chains of its fastbins. */
  datatype Share = Share(address: U64, from: nat, to: nat, runs: seq<Run>, fastOrder: seq<seq<nat>>)

  /** All chunks of the process, arena by arena and heap by heap; and, by thread and bin, the tcache chains. */
  datatype Process = Process(blocks: seq<Block>, shares: seq<Share>, cacheOrder: seq<seq<seq<nat>>>)

  // ----- Well-formed heaps -----

  predicate SoundBlock(layout: Layout, b: Block) {
    && b.at > 8
    && b.size >= 32
    && b.size % 16 == 0
    && b.at + b.size < TWO64
    && (b.fate.Fast? ==> b.fate.fastbin < layout.fastbinCount && b.size == 32 + 16 * b.fate.fastbin)
    && (b.fate.Cached? ==> b.fate.bin < layout.tcacheMaxBins)
  }

  predicate Disjoint(b: Block, c: Block) {
    b.at + b.size <= c.at || c.at + c.size <= b.at
  }

  ghost predicate SoundBlocks(layout: Layout, blocks: seq<Block>) {
    && (forall i :: 0 <= i < |blocks| ==> SoundBlock(layout, blocks[i]))
    && (forall i, j :: 0 <= i < j < |blocks| ==> Disjoint(blocks[i], blocks[j]))
  }

  predicate InRange(p: Process, order: seq<nat>) {
    forall k :: 0 <= k < |order| ==> order[k] < |p.blocks|
  }

  /** `order` lists, once each, exactly the chunks of fate `fate`, within the chain cap. */
  ghost predicate Orders(p: Process, order: seq<nat>, fate: Fate) {
    && Distinct(order)
    && |order| <= MAX_CHAIN
    && InRange(p, order)
    && (forall k :: 0 <= k < |order| ==> p.blocks[order[k]].fate == fate)
    && (forall i :: 0 <= i < |p.blocks| && p.blocks[i].fate == fate ==> i in order)
  }

  /** The chunks follow one another from `start` to `stop`. */
  ghost predicate Follows(blocks: seq<Block>, start: int, stop: int)
    decreases |blocks|
  {
    if blocks == [] then start == stop
    else blocks[0].at == start && Follows(blocks[1..], start + blocks[0].size, stop)
  }

  /** The heaps of an arena share out its chunks in order, each within the cap of a walk. */
  ghost predicate SharesOut(p: Process, s: Share) {
    && s.from <= s.to <= |p.blocks|
    && |s.runs| <= HeapList.MAX_HEAPS
    && (forall k :: 0 <= k < |s.runs| ==> InShare(s, k))
    && (if s.runs == [] then s.from == s.to else s.runs[|s.runs| - 1].to == s.to)
  }

  predicate InShare(s: Share, k: int)
    requires 0 <= k < |s.runs|
  {
    var run := s.runs[k];
    && run.from == (if k == 0 then s.from else s.runs[k - 1].to)
    && run.from <= run.to <= s.to
    && (if k == 0 then run.to - run.from <= MAX_CHUNKS else run.to - run.from < MAX_CHUNKS)
  }

  ghost predicate SoundShare(layout: Layout, p: Process, a: nat)
    requires a < |p.shares|
  {
    var s := p.shares[a];
    && s.from == (if a == 0 then 0 else p.shares[a - 1].to)
    && SharesOut(p, s)
    && (a == 0 ==> |s.runs| <= 1)
    && (forall j, k :: 0 <= j < k < |s.runs| ==> s.runs[j].heap.address != s.runs[k].heap.address)
    && |s.fastOrder| == layout.fastbinCount
    && (forall f: U32 :: f < layout.fastbinCount ==> Orders(p, s.fastOrder[f], Fast(a, f)))
  }

  ghost predicate WellFormed(layout: Layout, threads: nat, p: Process) {
    && SoundBlocks(layout, p.blocks)
    && 0 < |p.shares| < MAX_ARENAS
    && (forall a :: 0 <= a < |p.shares| ==> SoundShare(layout, p, a))
    && (forall a, b :: 0 <= a < b < |p.shares| ==> p.shares[a].address != p.shares[b].address)
    && (forall i :: 0 <= i < |p.blocks| && p.blocks[i].fate.Fast? ==>
          && p.blocks[i].fate.arena < |p.shares|
          && p.shares[p.blocks[i].fate.arena].from <= i < p.shares[p.blocks[i].fate.arena].to)
    && |p.cacheOrder| == threads
    && (forall t :: 0 <= t < threads ==> |p.cacheOrder[t]| == layout.tcacheMaxBins)
    && (forall t, b :: 0 <= t < threads && 0 <= b < layout.tcacheMaxBins ==>
          Orders(p, p.cacheOrder[t][b], Cached(t, b)))
    && (forall i :: 0 <= i < |p.blocks| && p.blocks[i].fate.Cached? ==> p.blocks[i].fate.thread < threads)
  }

  function ShareBlocks(p: Process, s: Share): seq<Block>
    requires s.from <= s.to <= |p.blocks|
  {
    p.blocks[s.from..s.to]
  }

  function RunBlocks(p: Process, run: Run): seq<Block>
    requires run.from <= run.to <= |p.blocks|
  {
    p.blocks[run.from..run.to]
  }

  /** Where the chunks of a heap end: at the top chunk, or at the bridge to a newer heap. */
  function StopOf(p: Process, run: Run): int
    requires run.from <= run.to <= |p.blocks|
  {
    if run.from == run.to then run.heap.regionStart else p.blocks[run.to - 1].at + p.blocks[run.to - 1].size
  }

  // ----- Pointers into the heap -----

  /** The user address of a chunk, past its size field: what tcache entries point to. */
  function UserOf(b: Block): U64 {
    (b.at + 8) % TWO64
  }

  /** The address of a chunk, a word before its size field: what fastbin links point to. */
  function ChunkOf(b: Block): U64 {
    (b.at + TWO64 - 8) % TWO64
  }

  function Users(p: Process, order: seq<nat>): (r: seq<U64>)
    requires InRange(p, order)
    ensures |r| == |order| && forall k :: 0 <= k < |r| ==> r[k] == UserOf(p.blocks[order[k]])
  {
    seq(|order|, k requires 0 <= k < |order| => UserOf(p.blocks[order[k]]))
  }

  function ChunkPointers(p: Process, order: seq<nat>): (r: seq<U64>)
    requires InRange(p, order)
    ensures |r| == |order| && forall k :: 0 <= k < |r| ==> r[k] == ChunkOf(p.blocks[order[k]])
  {
    seq(|order|, k requires 0 <= k < |order| => ChunkOf(p.blocks[order[k]]))
  }

  function Addresses(p: Process): (r: seq<U64>)
    ensures |r| == |p.shares| && forall a :: 0 <= a < |r| ==> r[a] == p.shares[a].address
  {
    seq(|p.shares|, a requires 0 <= a < |p.shares| => p.shares[a].address)
  }

  function HeapsOf(runs: seq<Run>): (heaps: seq<HeapList.Heap>)
    ensures |heaps| == |runs| && forall k :: 0 <= k < |heaps| ==> heaps[k] == runs[k].heap
  {
    seq(|runs|, k requires 0 <= k < |runs| => runs[k].heap)
  }

  // ----- Memory holding the heap, in words -----

  predicate WordIs(mem: Mem, address: nat, value: U64) {
    mem.Read(address % TWO64) == Some(value)
  }

  /** The size field has the chunk's size, and the size field after the chunk tells whether it is in use. */
  predicate HoldsChunk(mem: Mem, b: Block) {
    && b.at + b.size < TWO64
    && mem.Read(b.at).Some? && ChunkSize(mem.Read(b.at).value) == b.size
    && mem.Read(b.at + b.size).Some? && PrevInUse(mem.Read(b.at + b.size).value) == !b.fate.Free?
  }

  /** Memory holds a fastbin: its head in the arena, and its chain through the chunks of `order`. */
  ghost predicate HoldsFastbin(mem: Mem, layout: Layout, p: Process, arena: U64, order: seq<nat>, f: U32) {
    && InRange(p, order)
    && FastbinHead(mem, layout, p, arena, order, f)
    && StoresChain(mem, layout, 16, ChunkPointers(p, order))
  }

  predicate FastbinHead(mem: Mem, layout: Layout, p: Process, arena: U64, order: seq<nat>, f: U32)
    requires InRange(p, order)
  {
    WordIs(mem, arena + layout.fastbinArrayOffset + 8 * f, HeadOf(ChunkPointers(p, order)))
  }

  ghost predicate HoldsTcacheBin(mem: Mem, layout: Layout, p: Process, tcache: U64, order: seq<nat>, b: U32) {
    && InRange(p, order)
    && TcacheHead(mem, layout, p, tcache, order, b)
    && StoresChain(mem, layout, 0, Users(p, order))
  }

  predicate TcacheHead(mem: Mem, layout: Layout, p: Process, tcache: U64, order: seq<nat>, b: U32)
    requires InRange(p, order)
  {
    WordIs(mem, tcache + layout.tcacheEntriesOffset + 8 * b, HeadOf(Users(p, order)))
  }

  /** A thread's TLS variable: at its offset from the thread pointer, shifted by the word at the relocation. */
  predicate TlsWord(mem: Mem, layout: Layout, libc: U64, tp: U64, offset: U64, value: U64) {
    && layout.tpOffReloc.Some?
    && var shift := mem.Read((libc + layout.tpOffReloc.value) % TWO64);
       shift.Some? && WordIs(mem, tp + shift.value + offset, value)
  }

  /** The thread's TLS can be resolved, and its tcache, if any, holds the chains of the heap. */
  ghost predicate HoldsThread(mem: Mem, layout: Layout, libc: U64, thread: Thread, p: Process, t: nat)
    requires t < |p.cacheOrder| && |p.cacheOrder[t]| == layout.tcacheMaxBins
  {
    && thread.tp != 0
    && (layout.threadArena.Some? ==>
          exists arena :: TlsWord(mem, layout, libc, thread.tp, layout.threadArena.value, arena))
    && (if layout.hasTcache then
          exists tcache ::
            && TlsWord(mem, layout, libc, thread.tp, layout.tcacheValue, tcache)
            && HoldsTcache(mem, layout, p, tcache, t)
        else NothingCached(p, t))
  }

  ghost predicate HoldsTcache(mem: Mem, layout: Layout, p: Process, tcache: U64, t: nat)
    requires t < |p.cacheOrder| && |p.cacheOrder[t]| == layout.tcacheMaxBins
  {
    if tcache == 0 then NothingCached(p, t)
    else
      forall b: U32 :: b < layout.tcacheMaxBins ==> HoldsTcacheBin(mem, layout, p, tcache, p.cacheOrder[t][b], b)
  }

  ghost predicate NothingCached(p: Process, t: nat) {
    forall i :: 0 <= i < |p.blocks| && p.blocks[i].fate.Cached? ==> p.blocks[i].fate.thread != t
  }

  /** Zero words from `from` up to the region's first size field. */
  ghost predicate Padding(mem: Mem, from: nat, start: U64) {
    && from <= start && (start - from) % 8 == 0
    && forall a: U64 :: from <= a < start && (a - from) % 8 == 0 ==> mem.Read(a) == Some(0)
  }

  /** The heap's chunks are followed by an unflagged bridge, a fence, and a bare PREV_INUSE closing the region. */
  predicate BridgeWords(mem: Mem, p: Process, run: Run)
    requires run.from <= run.to <= |p.blocks|
  {
    var stop := StopOf(p, run);
    && 0 <= stop < TWO64 && mem.Read(stop).Some?
    && var bridge := mem.Read(stop).value;
       && !NonMainArena(bridge) && ChunkSize(bridge) >= 16 && ChunkSize(bridge) % 16 == 0
       && var at := stop + ChunkSize(bridge);
          && at < TWO64 && mem.Read(at).Some?
          && at + ChunkSize(mem.Read(at).value) + 8 == run.heap.regionEnd
          && mem.Read(run.heap.regionEnd - 8) == Some(1)
  }

  /** The last chunk is not itself taken for the bridge: the fence has a size, or the chunk is flagged. */
  predicate LastIsListed(mem: Mem, p: Process, run: Run)
    requires run.from <= run.to <= |p.blocks| && BridgeWords(mem, p, run)
  {
    var stop := StopOf(p, run);
    || ChunkSize(mem.Read(stop + ChunkSize(mem.Read(stop).value)).value) > 0
    || run.from == run.to
    || (mem.Read(p.blocks[run.to - 1].at).Some? && NonMainArena(mem.Read(p.blocks[run.to - 1].at).value))
  }

  predicate ClosedByBridge(mem: Mem, p: Process, run: Run)
    requires run.from <= run.to <= |p.blocks|
  {
    BridgeWords(mem, p, run) && LastIsListed(mem, p, run)
  }

  /** Where the main heap starts: at `sbrk_base`, or, if that is not mapped, in the segment that holds `top`. */
  predicate MainStartsAt(mem: Mem, layout: Layout, base: U64, top: U64, address: U64) {
    if mem.SegmentStart(base).Some? then address == base
    else
      && mem.SegmentStart(top).Some?
      && address == Max(mem.SegmentStart(top).value, Max(top - Min(4 * layout.heapMaxSize, MAX_U64), 0))
  }

  ghost predicate HoldsMain(mem: Mem, layout: Layout, libc: U64, p: Process, s: Share, base: U64, top: U64)
    requires SharesOut(p, s)
  {
    && WordIs(mem, libc + layout.mpValue + layout.sbrkBaseOffset, base)
    && WordIs(mem, s.address + layout.topOffset, top)
    && if s.runs == [] then base == 0 || top == 0
       else
         assert InShare(s, 0);
         var run := s.runs[0];
         && base != 0 && top != 0
         && MainStartsAt(mem, layout, base, top, run.heap.address)
         && run.heap.address <= top
         && run.heap.size == top - run.heap.address == run.heap.mprotectSize
         && run.heap.regionEnd == (top + 8) % TWO64
         && Follows(RunBlocks(p, run), run.heap.regionStart, run.heap.regionEnd)
         && Padding(mem, run.heap.address, run.heap.regionStart)
  }

  /** Heap `k` of a secondary arena: its heap_info, padding and chunks, and the words that close it. */
  ghost predicate HeapFrame(mem: Mem, layout: Layout, p: Process, s: Share, k: int, top: U64)
    requires SharesOut(p, s) && 0 <= k < |s.runs|
  {
    assert InShare(s, k);
    var run, oldest := s.runs[k], k == |s.runs| - 1;
    var prev := if oldest then 0 else s.runs[k + 1].heap.address;
    && (!oldest ==> prev != 0)
    && HeapList.InfoWords(mem, layout, run.heap.address, run.heap.size, run.heap.mprotectSize, prev)
    && Padding(mem, (run.heap.address + layout.heapInfoSize + if oldest then layout.mainArenaSize else 0) % TWO64,
               run.heap.regionStart)
    && Follows(RunBlocks(p, run), run.heap.regionStart, StopOf(p, run))
    && if k == 0 then run.heap.regionEnd == (top + 8) % TWO64 && StopOf(p, run) == run.heap.regionEnd
       else run.heap.regionEnd == run.heap.address + run.heap.size && BridgeWords(mem, p, run)
  }

  ghost predicate HoldsHeap(mem: Mem, layout: Layout, p: Process, s: Share, k: int, top: U64)
    requires SharesOut(p, s) && 0 <= k < |s.runs|
  {
    && HeapFrame(mem, layout, p, s, k, top)
    && (k > 0 ==> assert InShare(s, k); LastIsListed(mem, p, s.runs[k]))
  }

  /** Where a secondary arena's chunks start: `top`, and the block that holds it. */
  ghost predicate TopWords(mem: Mem, layout: Layout, s: Share, top: U64)
    requires layout.heapMaxSize > 0
  {
    && WordIs(mem, s.address + layout.topOffset, top)
    && if s.runs == [] then top == 0
       else top != 0 && s.runs[0].heap.address == HeapList.ToHeapStart(top, layout.heapMaxSize)
  }

  ghost predicate HoldsSecondary(mem: Mem, layout: Layout, p: Process, s: Share, top: U64)
    requires SharesOut(p, s) && layout.heapMaxSize > 0
  {
    TopWords(mem, layout, s, top) && forall k :: 0 <= k < |s.runs| ==> HoldsHeap(mem, layout, p, s, k, top)
  }

  ghost predicate HoldsShare(mem: Mem, layout: Layout, libc: U64, p: Process, a: nat)
    requires a < |p.shares| && SoundShare(layout, p, a) && layout.heapMaxSize > 0
  {
    && (if a == 0 then exists base, top :: HoldsMain(mem, layout, libc, p, p.shares[a], base, top)
        else exists top :: HoldsSecondary(mem, layout, p, p.shares[a], top))
    && forall f: U32 :: f < layout.fastbinCount ==>
         HoldsFastbin(mem, layout, p, p.shares[a].address, p.shares[a].fastOrder[f], f)
  }

  /** Memory is that of a process whose arenas hold the heap. */
  ghost predicate Represents(mem: Mem, layout: Layout, libc: U64, threads: seq<Thread>, p: Process) {
    && mem.TopWordUnmapped() && layout.heapMaxSize > 0
    && WellFormed(layout, |threads|, p)
    && p.shares[0].address == (libc + layout.mainArenaValue) % TWO64
    && RingPath(mem, layout, p.shares[0].address, Addresses(p))
    && (forall i :: 0 <= i < |p.blocks| ==> HoldsChunk(mem, p.blocks[i]))
    && (forall a :: 0 <= a < |p.shares| ==> HoldsShare(mem, layout, libc, p, a))
    && if layout.tpOffReloc.None? then forall i :: 0 <= i < |p.blocks| ==> !p.blocks[i].fate.Cached?
       else forall t :: 0 <= t < |threads| ==> HoldsThread(mem, layout, libc, threads[t], p, t)
  }

  // ----- The simple count -----

  function Payload(b: Block): nat {
    if b.size >= HEADER_SIZE then b.size - HEADER_SIZE else 0
  }

  /** The chunks in use by the program, or all the others. */
  function ShareWeight(live: bool, m: Measure): Block -> nat {
    (b: Block) => if b.fate.Live? == live then Weigh(m, Payload(b), 1) else 0
  }

  function HasFate(fate: Fate): Block -> nat {
    (b: Block) => if b.fate == fate then 1 else 0
  }

  function InTcacheBin(bin: nat): Block -> nat {
    (b: Block) => if b.fate.Cached? && b.fate.bin == bin then 1 else 0
  }

  /** A summary tells the share: its count, its bytes, and one bucket for each size that occurs, ascending. */
  ghost predicate Tells(s: ChunkSummary, blocks: seq<Block>, live: bool) {
    && s.count == Sum(blocks, ShareWeight(live, Chunks))
    && s.bytes == Sum(blocks, ShareWeight(live, Bytes))
    && Ascending(s.sizeHistogram)
    && (forall i :: 0 <= i < |s.sizeHistogram| ==>
          var b := s.sizeHistogram[i];
          b.count == Sum(blocks, ShareWeight(live, OfSize(b.size))) > 0 && b.bytes == Area(b.size, b.count))
    && (forall size: U64 :: Sum(blocks, ShareWeight(live, OfSize(size))) > 0 ==>
          exists i :: 0 <= i < |s.sizeHistogram| && s.sizeHistogram[i].size == size)
  }

  /** The non-empty fastbins among the first `bins`, with their chain lengths and payload sizes. */
  function FastTallies(orders: seq<seq<nat>>, bins: U32): seq<BinTally>
    requires bins <= |orders| && forall f :: 0 <= f < bins ==> |orders[f]| <= MAX_CHAIN
    decreases bins
  {
    if bins == 0 then []
    else
      var n, size := |orders[bins - 1]|, 24 + 16 * (bins - 1);
      BinBytesFit(size, n);
      FastTallies(orders, bins - 1) + if n == 0 then [] else [BinTally(bins - 1, size, n, Area(size, n))]
  }

  lemma BinBytesFit(size: nat, count: nat)
    requires size < 0x100_0000_0000 && count <= MAX_CHAIN
    ensures Area(size, count) < TWO64
  {
    assert size * count <= size * MAX_CHAIN;
  }

  /** The non-empty tcache bins, over all threads, ascending. */
  ghost predicate TellsCached(bins: seq<BinTally>, blocks: seq<Block>) {
    && (forall i, j :: 0 <= i < j < |bins| ==> bins[i].index < bins[j].index)
    && (forall i :: 0 <= i < |bins| ==>
          && bins[i].count == Sum(blocks, InTcacheBin(bins[i].index)) > 0
          && bins[i].size == 24 + 16 * bins[i].index
          && bins[i].bytes == Min(Area(bins[i].size, bins[i].count), MAX_U64))
    && (forall bin: U32 :: Sum(blocks, InTcacheBin(bin)) > 0 ==> exists i :: 0 <= i < |bins| && bins[i].index == bin)
  }

  /** The report of an arena is the simple count over its chunks. */
  ghost predicate ReportsShare(layout: Layout, threads: seq<Thread>, p: Process, a: nat, r: ArenaReport)
    requires WellFormed(layout, |threads|, p) && a < |p.shares| && SoundShare(layout, p, a)
  {
    var s := p.shares[a];
    var blocks, heaps := ShareBlocks(p, s), HeapsOf(s.runs);
    && r.index == a && r.isMain == (a == 0)
    && r.heaps.count == |heaps|
    && r.heaps.totalBytes == Min(Sum(heaps, HeapSize()), MAX_U64)
    && r.heaps.committedBytes == Min(Sum(heaps, HeapCommitted()), MAX_U64)
    && Tells(r.alloc, blocks, true)
    && Tells(r.free, blocks, false)
    && r.overheadCount == |blocks| && r.overheadBytes == 8 * |blocks|
    && r.fastbins == FastTallies(s.fastOrder, layout.fastbinCount)
    && TellsCached(r.tcacheBins, blocks)
    && (forall id :: id in r.tcacheThreads <==> CachedBy(threads, blocks, id))
  }

  /** Some chunk is in a tcache bin of the thread with that id. */
  ghost predicate CachedBy(threads: seq<Thread>, blocks: seq<Block>, id: I32) {
    exists i :: 0 <= i < |blocks| && blocks[i].fate.Cached? && blocks[i].fate.thread < |threads|
      && threads[blocks[i].fate.thread].threadId == id
  }
}
