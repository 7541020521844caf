/** Accounting for the chunks of an arena of a process. */
module ProcessBooks {
  import opened Words
  import opened Memory
  import opened Orbit
  import opened FreeLists
  import opened Arenas
  import opened ChunkWalk
  import opened Sums
  import opened Stats
  import opened Accounting
  import opened Report
  import opened Tls
  import opened Pipeline
  import opened AbstractHeap
  import opened ProcessWalk
  import opened ProcessTls

  // ----- Walking the fastbins -----

  ghost predicate ResultOf(orders: seq<seq<nat>>, results: seq<FastbinResult>, f: U32)
    requires f < |orders| && f < |results|
  {
    results[f].index == f && results[f].size == 24 + 16 * f && results[f].count == |orders[f]|
  }

  lemma SlotOfFastbin(layout: Layout, arena: Arena, f: U32)
    ensures FastbinSlot(layout, arena, f) == (arena.mallocStateAddr + layout.fastbinArrayOffset + 8 * f) % TWO64
  {
  }

  lemma WalksFastbin(mem: Mem, layout: Layout, p: Process, arena: Arena, order: seq<nat>, fate: Fate, f: U32)
    requires Orders(p, order, fate) && HoldsFastbin(mem, layout, p, arena.mallocStateAddr, order, f)
    ensures mem.Read(FastbinSlot(layout, arena, f)).Some?
    ensures var (result, problems) :=
              FastbinWalk(mem, layout, mem.Read(FastbinSlot(layout, arena, f)).value, arena.index, f);
            && problems == []
            && result.index == f && result.size == 24 + 16 * f && result.count == |order|
  {
    hide StoresChain, FastbinSlot;
    SlotOfFastbin(layout, arena, f);
    StoredChainIsFollowed(mem, layout, FD_OFFSET, ChunkPointers(p, order));
  }

  lemma {:induction false} WalksFastbins(mem: Mem, layout: Layout, p: Process, a: nat, bins: U32)
    requires a < |p.shares| < MAX_ARENAS && SoundShare(layout, p, a) && bins <= layout.fastbinCount
    requires forall f: U32 :: f < layout.fastbinCount ==>
               HoldsFastbin(mem, layout, p, p.shares[a].address, p.shares[a].fastOrder[f], f)
    ensures var (results, problems) := Fastbins(mem, layout, Arena(p.shares[a].address, a), bins);
            && problems == [] && |results| == bins
            && forall f: U32 :: f < bins ==> ResultOf(p.shares[a].fastOrder, results, f)
    decreases bins
  {
    hide HoldsFastbin, FastbinSlot, FastbinWalk, Orders, SharesOut;
    if bins > 0 {
      var f, arena := bins - 1, Arena(p.shares[a].address, a);
      WalksFastbins(mem, layout, p, a, f);
      assert Orders(p, p.shares[a].fastOrder[f], Fast(a, f));
      WalksFastbin(mem, layout, p, arena, p.shares[a].fastOrder[f], Fast(a, f), f);
      var before, after := Fastbins(mem, layout, arena, f).0, Fastbins(mem, layout, arena, bins).0;
      forall g: U32 | 0 <= g < f
        ensures ResultOf(p.shares[a].fastOrder, after, g)
      {
        assert ResultOf(p.shares[a].fastOrder, before, g) && after[g] == before[g];
      }
    }
  }

  // ----- Counting -----

  function FastWeight(m: Measure): Block -> nat {
    (b: Block) => if b.fate.Fast? then Weigh(m, Payload(b), 1) else 0
  }

  /** What the walk takes for allocated: chunks that are live or in a fastbin. */
  function SeenAllocated(m: Measure): Block -> nat {
    (b: Block) => if b.fate.Live? || b.fate.Fast? then Weigh(m, Payload(b), 1) else 0
  }

  function SeenFree(m: Measure): Block -> nat {
    (b: Block) => if b.fate.Live? || b.fate.Fast? then 0 else Weigh(m, Payload(b), 1)
  }

  lemma EventWeighs(layout: Layout, threads: seq<Thread>, b: Block, members: Membership, m: Measure)
    requires SoundBlock(layout, b) && OwnerMatches(threads, b, members)
    ensures AllocWeight(members, m)(EventOf(b)) == SeenAllocated(m)(b)
    ensures FreeWeight(members, m)(EventOf(b)) == SeenFree(m)(b)
  {
    hide Weigh;
    UserIs(layout, b);
  }

  lemma EventSums(layout: Layout, threads: seq<Thread>, blocks: seq<Block>, members: Membership, m: Measure)
    requires SoundBlocks(layout, blocks) && OwnersMatch(threads, blocks, members)
    ensures var events := BlockEvents(layout, blocks);
            && Sum(events, AllocWeight(members, m))
               == Sum(blocks, ShareWeight(true, m)) + Sum(blocks, FastWeight(m))
            && Sum(events, FreeWeight(members, m)) + Sum(blocks, FastWeight(m))
               == Sum(blocks, ShareWeight(false, m))
  {
    hide Weigh, Payload, SoundBlock, Disjoint, Sum, OwnerMatches;
    var events := BlockEvents(layout, blocks);
    forall i | 0 <= i < |blocks|
      ensures AllocWeight(members, m)(events[i]) == SeenAllocated(m)(blocks[i])
      ensures FreeWeight(members, m)(events[i]) == SeenFree(m)(blocks[i])
    {
      assert SoundBlock(layout, blocks[i]) && OwnerMatches(threads, blocks[i], members);
      EventWeighs(layout, threads, blocks[i], members, m);
    }
    SumPointwise(events, blocks, AllocWeight(members, m), SeenAllocated(m));
    SumPointwise(events, blocks, FreeWeight(members, m), SeenFree(m));
    SumSplit(blocks, SeenAllocated(m), ShareWeight(true, m), FastWeight(m));
    SumSplit(blocks, ShareWeight(false, m), SeenFree(m), FastWeight(m));
  }

  lemma CachedSums(layout: Layout, threads: seq<Thread>, blocks: seq<Block>, members: Membership, bin: U32)
    requires SoundBlocks(layout, blocks) && OwnersMatch(threads, blocks, members)
    ensures Sum(BlockEvents(layout, blocks), CachedInBin(members, bin)) == Sum(blocks, InTcacheBin(bin))
  {
    hide Sum, Disjoint;
    var events := BlockEvents(layout, blocks);
    forall i | 0 <= i < |blocks|
      ensures CachedInBin(members, bin)(events[i]) == InTcacheBin(bin)(blocks[i])
    {
      assert SoundBlock(layout, blocks[i]) && OwnerMatches(threads, blocks[i], members);
      UserIs(layout, blocks[i]);
    }
    SumPointwise(events, blocks, CachedInBin(members, bin), InTcacheBin(bin));
  }

  /** A chain that lists each chunk of a fate once is as long as there are such chunks. */
  lemma OrderLength(p: Process, order: seq<nat>, fate: Fate)
    requires Orders(p, order, fate)
    ensures |order| == Sum(p.blocks, HasFate(fate))
  {
    var listed := Listed(order);
    var chunks := WithFate(p.blocks, fate, |p.blocks|);
    forall i | i in listed
      ensures i in chunks
    {
      var k :| 0 <= k < |order| && order[k] == i;
    }
    assert listed == chunks;
    DistinctCardinality(order);
    FateCardinality(p.blocks, fate, |p.blocks|);
    assert p.blocks[..|p.blocks|] == p.blocks;
  }

  function Listed(order: seq<nat>): set<nat> {
    set i | i in order
  }

  lemma {:induction false} DistinctCardinality(order: seq<nat>)
    requires Distinct(order)
    ensures |Listed(order)| == |order|
  {
    if order != [] {
      var n := |order| - 1;
      DistinctCardinality(order[..n]);
      assert order == order[..n] + [order[n]];
      assert order[n] !in Listed(order[..n]);
      assert Listed(order) == Listed(order[..n]) + {order[n]};
    }
  }

  function WithFate(blocks: seq<Block>, fate: Fate, n: nat): set<nat>
    requires n <= |blocks|
  {
    set i | 0 <= i < n && blocks[i].fate == fate
  }

  lemma {:induction false} FateCardinality(blocks: seq<Block>, fate: Fate, n: nat)
    requires n <= |blocks|
    ensures |WithFate(blocks, fate, n)| == Sum(blocks[..n], HasFate(fate))
  {
    if n > 0 {
      var last := n - 1;
      FateCardinality(blocks, fate, last);
      SumSnoc(blocks, HasFate(fate), last);
      if blocks[last].fate == fate {
        assert WithFate(blocks, fate, n) == WithFate(blocks, fate, last) + {last};
      } else {
        assert WithFate(blocks, fate, n) == WithFate(blocks, fate, last);
      }
    }
  }

  function Nothing(): Block -> nat {
    (b: Block) => 0
  }

  lemma {:induction false} SumOfNothing(blocks: seq<Block>)
    ensures Sum(blocks, Nothing()) == 0
  {
    if blocks != [] {
      SumOfNothing(blocks[..|blocks| - 1]);
    }
  }

  /** What weighs nothing outside some chunks weighs the same in them as in all. */
  lemma SumOfSome(blocks: seq<Block>, from: nat, to: nat, f: Block -> nat)
    requires from <= to <= |blocks|
    requires forall i :: 0 <= i < |blocks| && !(from <= i < to) ==> f(blocks[i]) == 0
    ensures Sum(blocks, f) == Sum(blocks[from..to], f)
  {
    hide Sum;
    assert blocks == blocks[..from] + blocks[from..to] + blocks[to..];
    SumConcat(blocks[..from] + blocks[from..to], blocks[to..], f);
    SumConcat(blocks[..from], blocks[from..to], f);
    SumPointwise(blocks[..from], blocks[..from], f, Nothing());
    SumPointwise(blocks[to..], blocks[to..], f, Nothing());
    SumOfNothing(blocks[..from]);
    SumOfNothing(blocks[to..]);
  }

  /** Chunks in the fastbins of an arena are chunks of that arena. */
  lemma FastbinLength(layout: Layout, threads: nat, p: Process, a: nat, f: U32)
    requires WellFormed(layout, threads, p) && a < |p.shares| && f < layout.fastbinCount
    ensures SoundShare(layout, p, a)
    ensures |p.shares[a].fastOrder[f]| == Sum(ShareBlocks(p, p.shares[a]), HasFate(Fast(a, f)))
  {
    hide SoundBlocks, SharesOut;
    var s := p.shares[a];
    assert SoundShare(layout, p, a);
    assert s.from <= s.to <= |p.blocks| by {
      ShareIsPart(p, s);
    }
    OrderLength(p, s.fastOrder[f], Fast(a, f));
    SumOfSome(p.blocks, s.from, s.to, HasFate(Fast(a, f)));
  }

  lemma ShareIsPart(p: Process, s: Share)
    requires SharesOut(p, s)
    ensures s.from <= s.to <= |p.blocks|
  {
  }

  function InFastbinWeight(a: nat, f: U32, m: Measure): Block -> nat {
    (b: Block) => if b.fate == Fast(a, f) then Weigh(m, Payload(b), 1) else 0
  }

  function BelowFastbin(a: nat, f: nat, m: Measure): Block -> nat {
    (b: Block) => if b.fate.Fast? && b.fate.arena == a && b.fate.fastbin < f then Weigh(m, Payload(b), 1) else 0
  }

  /** All chunks of one fastbin have its payload size. */
  lemma {:induction false} FastbinWeighs(layout: Layout, blocks: seq<Block>, a: nat, f: U32, m: Measure)
    requires forall i :: 0 <= i < |blocks| ==> SoundBlock(layout, blocks[i])
    ensures Sum(blocks, InFastbinWeight(a, f, m)) == Weigh(m, 24 + 16 * f, Sum(blocks, HasFate(Fast(a, f))))
  {
    if blocks == [] {
      NothingMoved(m, 24 + 16 * f);
    } else {
      hide Weigh;
      var before, b := blocks[..|blocks| - 1], blocks[|blocks| - 1];
      FastbinWeighs(layout, before, a, f, m);
      assert SoundBlock(layout, b);
      WeighSum(m, 24 + 16 * f, Sum(before, HasFate(Fast(a, f))), 1);
    }
  }

  /** Counting fastbin chunks bin by bin along their chains, or chunk by chunk in the arena, is the same. */
  lemma {:induction false} MovedSums(
      layout: Layout, blocks: seq<Block>, a: nat, orders: seq<seq<nat>>, results: seq<FastbinResult>, bins: U32,
      m: Measure)
    requires bins <= |results| == |orders| && forall i :: 0 <= i < |blocks| ==> SoundBlock(layout, blocks[i])
    requires forall f: U32 :: f < |results| ==>
               ResultOf(orders, results, f) && |orders[f]| == Sum(blocks, HasFate(Fast(a, f)))
    ensures Sum(results[..bins], MovedWeight(m)) == Sum(blocks, BelowFastbin(a, bins, m))
    decreases bins
  {
    hide Weigh, Payload;
    if bins == 0 {
      SumPointwise(blocks, blocks, BelowFastbin(a, 0, m), Nothing());
      SumOfNothing(blocks);
    } else {
      var f := bins - 1;
      MovedSums(layout, blocks, a, orders, results, f, m);
      SumSnoc(results, MovedWeight(m), f);
      assert ResultOf(orders, results, f);
      FastbinWeighs(layout, blocks, a, f, m);
      SumSplit(blocks, BelowFastbin(a, bins, m), BelowFastbin(a, f, m), InFastbinWeight(a, f, m));
    }
  }

  /** What the fastbins of an arena move is exactly its chunks of fastbin fate. */
  lemma AllMovedSums(
      layout: Layout, blocks: seq<Block>, a: nat, orders: seq<seq<nat>>, results: seq<FastbinResult>, m: Measure)
    requires |results| == |orders| == layout.fastbinCount
    requires SoundBlocks(layout, blocks)
    requires forall i :: 0 <= i < |blocks| && blocks[i].fate.Fast? ==> blocks[i].fate.arena == a
    requires forall f: U32 :: f < |results| ==>
               ResultOf(orders, results, f) && |orders[f]| == Sum(blocks, HasFate(Fast(a, f)))
    ensures Sum(results, MovedWeight(m)) == Sum(blocks, FastWeight(m))
  {
    hide Weigh, Payload, Disjoint, Sum;
    MovedSums(layout, blocks, a, orders, results, layout.fastbinCount, m);
    assert results[..|results|] == results;
    forall i | 0 <= i < |blocks|
      ensures BelowFastbin(a, layout.fastbinCount, m)(blocks[i]) == FastWeight(m)(blocks[i])
    {
      assert SoundBlock(layout, blocks[i]);
    }
    SumPointwise(blocks, blocks, BelowFastbin(a, layout.fastbinCount, m), FastWeight(m));
  }

  // ----- Disjoint chunks fit the address space -----

  function SizeWeight(): Block -> nat {
    (b: Block) => b.size
  }

  function PayloadWeight(): Block -> nat {
    (b: Block) => Weigh(Bytes, Payload(b), 1)
  }

  /** The addresses from `low` to before `high`. */
  ghost function Interval(low: nat, high: nat): set<nat>
    decreases high
  {
    if low >= high then {} else Interval(low, high - 1) + {high - 1}
  }

  lemma {:induction false} IntervalSize(low: nat, high: nat)
    requires low <= high
    ensures |Interval(low, high)| == high - low
    ensures forall a :: a in Interval(low, high) <==> low <= a < high
    decreases high
  {
    if low < high {
      IntervalSize(low, high - 1);
    }
  }

  /** The addresses of the first `n` chunks. */
  ghost function Covered(blocks: seq<Block>, n: nat): set<nat>
    requires n <= |blocks|
  {
    if n == 0 then {} else Covered(blocks, n - 1) + Interval(blocks[n - 1].at, blocks[n - 1].at + blocks[n - 1].size)
  }

  ghost predicate InSome(blocks: seq<Block>, n: nat, a: nat)
    requires n <= |blocks|
  {
    exists i :: 0 <= i < n && blocks[i].at <= a < blocks[i].at + blocks[i].size
  }

  lemma {:induction false} CoveredIsSome(blocks: seq<Block>, n: nat, a: nat)
    requires n <= |blocks|
    ensures a in Covered(blocks, n) <==> InSome(blocks, n, a)
    decreases n
  {
    if n > 0 {
      CoveredIsSome(blocks, n - 1, a);
      IntervalSize(blocks[n - 1].at, blocks[n - 1].at + blocks[n - 1].size);
      if InSome(blocks, n, a) {
        var i :| 0 <= i < n && blocks[i].at <= a < blocks[i].at + blocks[i].size;
        assert i < n - 1 ==> InSome(blocks, n - 1, a);
      }
      if InSome(blocks, n - 1, a) {
        var i :| 0 <= i < n - 1 && blocks[i].at <= a < blocks[i].at + blocks[i].size;
        assert InSome(blocks, n, a);
      }
      if blocks[n - 1].at <= a < blocks[n - 1].at + blocks[n - 1].size {
        assert InSome(blocks, n, a);
      }
    }
  }

  lemma NextIsApart(layout: Layout, blocks: seq<Block>, n: nat)
    requires SoundBlocks(layout, blocks) && 0 < n <= |blocks|
    ensures Covered(blocks, n - 1) !! Interval(blocks[n - 1].at, blocks[n - 1].at + blocks[n - 1].size)
  {
    hide Interval, Covered;
    var b := blocks[n - 1];
    var next := Interval(b.at, b.at + b.size);
    IntervalSize(b.at, b.at + b.size);
    forall a: nat
      ensures !(a in Covered(blocks, n - 1) && a in next)
    {
      CoveredIsSome(blocks, n - 1, a);
      if a in Covered(blocks, n - 1) {
        var i :| 0 <= i < n - 1 && blocks[i].at <= a < blocks[i].at + blocks[i].size;
        assert Disjoint(blocks[i], b);
      }
    }
  }

  lemma {:induction false} CoveredSize(layout: Layout, blocks: seq<Block>, n: nat)
    requires SoundBlocks(layout, blocks) && n <= |blocks|
    ensures |Covered(blocks, n)| == Sum(blocks[..n], SizeWeight())
    decreases n
  {
    hide Interval, SoundBlocks;
    if n > 0 {
      var b := blocks[n - 1];
      CoveredSize(layout, blocks, n - 1);
      SumSnoc(blocks, SizeWeight(), n - 1);
      IntervalSize(b.at, b.at + b.size);
      NextIsApart(layout, blocks, n);
    }
  }

  lemma SizesFit(layout: Layout, blocks: seq<Block>)
    requires SoundBlocks(layout, blocks)
    ensures Sum(blocks, SizeWeight()) <= TWO64
  {
    hide Covered, Sum, Interval;
    CoveredSize(layout, blocks, |blocks|);
    assert blocks[..|blocks|] == blocks;
    IntervalSize(0, TWO64);
    forall a: nat | a in Covered(blocks, |blocks|)
      ensures a < TWO64
    {
      CoveredIsSome(blocks, |blocks|, a);
      var i :| 0 <= i < |blocks| && blocks[i].at <= a < blocks[i].at + blocks[i].size;
      assert SoundBlock(layout, blocks[i]);
    }
    SubsetSize(Covered(blocks, |blocks|), Interval(0, TWO64));
  }

  lemma {:induction false} SubsetSize(s: set<nat>, t: set<nat>)
    requires s <= t
    ensures |s| <= |t|
  {
    assert t == s + (t - s);
  }

  lemma PayloadBounded(layout: Layout, blocks: seq<Block>)
    requires SoundBlocks(layout, blocks)
    ensures Sum(blocks, ShareWeight(true, Bytes)) + Sum(blocks, ShareWeight(false, Bytes)) < TWO64
  {
    SumSplit(blocks, PayloadWeight(), ShareWeight(true, Bytes), ShareWeight(false, Bytes));
    SizesFit(layout, blocks);
    PayloadBelowSize(layout, blocks);
  }

  lemma {:induction false} PayloadBelowSize(layout: Layout, blocks: seq<Block>)
    requires forall i :: 0 <= i < |blocks| ==> SoundBlock(layout, blocks[i])
    ensures Sum(blocks, PayloadWeight()) + 8 * |blocks| == Sum(blocks, SizeWeight())
  {
    if blocks != [] {
      var b := blocks[|blocks| - 1];
      PayloadBelowSize(layout, blocks[..|blocks| - 1]);
      assert SoundBlock(layout, b);
      assert Area(b.size - 8, 1) == b.size - 8;
    }
  }

  // ----- The totals -----

  /** What the accounting of an arena is about: its chunks, their owners, its fastbins. */
  ghost predicate Accounted(
      layout: Layout, threads: seq<Thread>, blocks: seq<Block>, a: nat, members: Membership,
      orders: seq<seq<nat>>, results: seq<FastbinResult>)
  {
    && SoundBlocks(layout, blocks)
    && OwnersMatch(threads, blocks, members)
    && |results| == |orders| == layout.fastbinCount
    && (forall i :: 0 <= i < |blocks| && blocks[i].fate.Fast? ==> blocks[i].fate.arena == a)
    && (forall i :: 0 <= i < |blocks| && blocks[i].fate.Cached? ==> blocks[i].fate.thread < |threads|)
    && (forall f: U32 :: f < |results| ==>
          && ResultOf(orders, results, f)
          && |orders[f]| == Sum(blocks, HasFate(Fast(a, f)))
          && |orders[f]| <= MAX_CHAIN)
  }

  lemma HeapBooksBalance(
      layout: Layout, threads: seq<Thread>, blocks: seq<Block>, a: U32, members: Membership,
      orders: seq<seq<nat>>, results: seq<FastbinResult>)
    requires Accounted(layout, threads, blocks, a, members, orders, results) && |blocks| < TWO64
    ensures var (stats, problems) := Account(a, BlockEvents(layout, blocks), members, results);
            && problems == []
            && (forall m ::
                  && Reading(stats.alloc, m) == Sum(blocks, ShareWeight(true, m))
                  && Reading(stats.free, m) == Sum(blocks, ShareWeight(false, m)))
            && Balanced(stats.alloc) && Balanced(stats.free)
  {
    hide SoundBlocks, OwnersMatch, Account, Sum, HistSum, ResultOf;
    var events := BlockEvents(layout, blocks);
    forall m: Measure
      ensures Sum(events, AllocWeight(members, m)) == Sum(blocks, ShareWeight(true, m)) + Sum(results, MovedWeight(m))
      ensures Sum(events, FreeWeight(members, m)) + Sum(results, MovedWeight(m)) == Sum(blocks, ShareWeight(false, m))
    {
      EventSums(layout, threads, blocks, members, m);
      AllMovedSums(layout, blocks, a, orders, results, m);
    }
    InconsistencyExactly(a, events, members, results);
    PayloadBounded(layout, blocks);
    SilentMeansExact(a, events, members, results);
    ReadsBytes(Account(a, events, members, results).0.alloc);
    ReadsBytes(Account(a, events, members, results).0.free);
  }

  lemma SummaryTells(t: Tally, blocks: seq<Block>, live: bool)
    requires Balanced(t) && forall m :: Reading(t, m) == Sum(blocks, ShareWeight(live, m))
    ensures Tells(Summarize(t), blocks, live)
  {
    var s := Summarize(t);
    assert Reading(t, Chunks) == s.count && Reading(t, Bytes) == s.bytes;
    BucketsList(t.histogram);
    forall i | 0 <= i < |s.sizeHistogram|
      ensures var b := s.sizeHistogram[i];
              b.count == Sum(blocks, ShareWeight(live, OfSize(b.size))) > 0 && b.bytes == Area(b.size, b.count)
    {
      var b := s.sizeHistogram[i];
      assert TalliesSize(t.histogram, b);
      assert Reading(t, OfSize(b.size)) == b.count;
      BucketWithinSum(t.histogram, b.size, b.count, Bytes);
      assert Area(b.size, b.count) == (b.size as int) * (b.count as int);
    }
    forall size: U64 | Sum(blocks, ShareWeight(live, OfSize(size))) > 0
      ensures exists i :: 0 <= i < |s.sizeHistogram| && s.sizeHistogram[i].size == size
    {
      assert Reading(t, OfSize(size)) > 0;
    }
  }

  // ----- The bins -----

  lemma {:induction false} FastTalliesReported(
      b: Books, orders: seq<seq<nat>>, results: seq<FastbinResult>, bins: U32, arena: U32)
    requires bins <= |results| == |orders|
    requires forall f: U32 :: f < |results| ==> |orders[f]| <= MAX_CHAIN && ResultOf(orders, results, f)
    ensures MoveAll(b, results[..bins], arena).fastbins == FastTallies(orders, bins)
    decreases bins
  {
    hide Area, SaturatingMul;
    if bins > 0 {
      FastTalliesReported(b, orders, results, bins - 1, arena);
      assert results[..bins][..bins - 1] == results[..bins - 1];
      assert ResultOf(orders, results, bins - 1);
      BinBytesFit(24 + 16 * (bins - 1), |orders[bins - 1]|);
      ClampedArea(24 + 16 * (bins - 1), |orders[bins - 1]|);
    }
  }

  lemma {:induction false} PostedThreads(events: seq<ChunkEvent>, members: Membership)
    ensures forall id :: id in PostAll(events, members).threads <==>
              exists i :: 0 <= i < |events| && events[i].prevInuseSaysInUse
                && events[i].userAddr in members && members[events[i].userAddr].thread == id
  {
    if events != [] {
      var n := |events| - 1;
      PostedThreads(events[..n], members);
      forall id
        ensures id in PostAll(events, members).threads <==>
                exists i :: 0 <= i < |events| && events[i].prevInuseSaysInUse
                  && events[i].userAddr in members && members[events[i].userAddr].thread == id
      {
        assert forall i :: 0 <= i < n ==> events[..n][i] == events[i];
      }
    }
  }

  lemma CachedReported(layout: Layout, threads: seq<Thread>, blocks: seq<Block>, members: Membership)
    requires SoundBlocks(layout, blocks) && OwnersMatch(threads, blocks, members) && |blocks| < TWO64
    ensures TellsCached(TcacheBins(PostAll(BlockEvents(layout, blocks), members).cached), blocks)
  {
    hide TcacheBins, PostAll, HistSum, SoundBlocks, OwnersMatch, Sum;
    var events := BlockEvents(layout, blocks);
    var cached := PostAll(events, members).cached;
    CachedCounts(events, members);
    TcacheBinsList(cached);
    forall bin: U32
      ensures BinCount(cached, bin) == Sum(blocks, InTcacheBin(bin))
    {
      CachedSums(layout, threads, blocks, members, bin);
    }
    var bins := TcacheBins(cached);
    forall i | 0 <= i < |bins|
      ensures bins[i].count == Sum(blocks, InTcacheBin(bins[i].index)) > 0
              && bins[i].size == 24 + 16 * bins[i].index
              && bins[i].bytes == Min(Area(bins[i].size, bins[i].count), MAX_U64)
    {
      assert TalliesBin(cached, bins[i]);
      assert BinCount(cached, bins[i].index) == bins[i].count;
      ClampedArea(bins[i].size, bins[i].count);
    }
    forall bin: U32 | Sum(blocks, InTcacheBin(bin)) > 0
      ensures exists i :: 0 <= i < |bins| && bins[i].index == bin
    {
      assert BinCount(cached, bin) > 0;
    }
  }

  lemma ClampedArea(size: U64, count: U64)
    ensures SaturatingMul(size, count) == Min(Area(size, count), MAX_U64)
  {
  }

  lemma ThreadsReported(layout: Layout, threads: seq<Thread>, blocks: seq<Block>, members: Membership)
    requires SoundBlocks(layout, blocks) && OwnersMatch(threads, blocks, members)
    ensures forall id :: id in PostAll(BlockEvents(layout, blocks), members).threads <==> CachedBy(threads, blocks, id)
  {
    hide PostAll, Disjoint;
    var events := BlockEvents(layout, blocks);
    PostedThreads(events, members);
    forall i | 0 <= i < |blocks|
      ensures events[i].prevInuseSaysInUse && events[i].userAddr in members <==> blocks[i].fate.Cached?
      ensures blocks[i].fate.Cached? ==>
                && blocks[i].fate.thread < |threads|
                && members[events[i].userAddr].thread == threads[blocks[i].fate.thread].threadId
    {
      assert SoundBlock(layout, blocks[i]) && OwnerMatches(threads, blocks[i], members);
      UserIs(layout, blocks[i]);
    }
  }

  /** The statistics over an arena's chunks are the simple count. */
  lemma StatsReport(
      layout: Layout, threads: seq<Thread>, blocks: seq<Block>, a: U32, members: Membership,
      orders: seq<seq<nat>>, results: seq<FastbinResult>)
    requires Accounted(layout, threads, blocks, a, members, orders, results) && |blocks| < TWO64
    ensures var (stats, problems) := Account(a, BlockEvents(layout, blocks), members, results);
            && problems == []
            && Tells(Summarize(stats.alloc), blocks, true)
            && Tells(Summarize(stats.free), blocks, false)
            && stats.overheadCount == |blocks|
            && stats.overheadBytes == Min(8 * |blocks|, MAX_U64)
            && stats.fastbins == FastTallies(orders, layout.fastbinCount)
            && TellsCached(stats.tcacheBins, blocks)
            && (forall id :: id in stats.tcacheThreads <==> CachedBy(threads, blocks, id))
  {
    hide Tells, TellsCached, FastTallies, SoundBlocks, OwnersMatch, Balanced, Reading, PostAll, MoveAll, Sum, CachedBy;
    hide ResultOf, TcacheBins;
    var events := BlockEvents(layout, blocks);
    HeapBooksBalance(layout, threads, blocks, a, members, orders, results);
    var stats := Account(a, events, members, results).0;
    SummaryTells(stats.alloc, blocks, true);
    SummaryTells(stats.free, blocks, false);
    FastTalliesReported(PostAll(events, members), orders, results, layout.fastbinCount, a);
    assert results[..|results|] == results;
    CachedReported(layout, threads, blocks, members);
    ThreadsReported(layout, threads, blocks, members);
  }
}
