/** The report: histograms, summaries, and what a reader may rely on in them. */
module Report {
  import opened Words
  import opened FreeLists
  import opened HeapList
  import opened ChunkWalk
  import opened Sums
  import opened Stats
  import opened Accounting

  datatype SizeBucket = SizeBucket(size: U64, count: U64, bytes: U64)

  /** The non-empty buckets of a histogram, in ascending order of size. */
  function Buckets(h: Histogram): seq<SizeBucket>
    decreases |h|
  {
    if h == map[] then []
    else
      assert h.Keys != {};
      var size: U64 := MinKey(h.Keys);
      (if h[size] > 0 then [SizeBucket(size, h[size], SaturatingMul(size, h[size]))] else [])
      + Buckets(h - {size})
  }

  function BucketCount(): SizeBucket -> nat {
    (b: SizeBucket) => b.count
  }

  function BucketBytes(): SizeBucket -> nat {
    (b: SizeBucket) => b.bytes
  }

  function BinChunks(): BinTally -> nat {
    (b: BinTally) => b.count
  }

  datatype HeapsSummary = HeapsSummary(count: U64, totalBytes: U64, committedBytes: U64)

  function HeapSize(): Heap -> nat {
    (h: Heap) => h.size
  }

  function HeapCommitted(): Heap -> nat {
    (h: Heap) => h.mprotectSize
  }

  function Summary(heaps: seq<Heap>): HeapsSummary
    requires |heaps| < TWO64
  {
    HeapsSummary(|heaps|, Min(Sum(heaps, HeapSize()), MAX_U64), Min(Sum(heaps, HeapCommitted()), MAX_U64))
  }

  method FromHeaps(heaps: seq<Heap>) returns (summary: HeapsSummary)
    requires |heaps| < TWO64
    ensures summary == Summary(heaps)
  {
    var total: U64, committed: U64 := 0, 0;
    for i := 0 to |heaps|
      invariant total == Min(Sum(heaps[..i], HeapSize()), MAX_U64)
      invariant committed == Min(Sum(heaps[..i], HeapCommitted()), MAX_U64)
    {
      SumSnoc(heaps, HeapSize(), i);
      SumSnoc(heaps, HeapCommitted(), i);
      total := SaturatingAdd(total, heaps[i].size);
      committed := SaturatingAdd(committed, heaps[i].mprotectSize);
    }
    assert heaps[..|heaps|] == heaps;
    summary := HeapsSummary(|heaps|, total, committed);
  }

  datatype ChunkSummary = ChunkSummary(count: U64, bytes: U64, sizeHistogram: seq<SizeBucket>)

  datatype ArenaReport = ArenaReport(
    index: U32,
    isMain: bool,
    attachedThreads: seq<I32>,
    heaps: HeapsSummary,
    alloc: ChunkSummary,
    free: ChunkSummary,
    fastbins: seq<BinTally>,
    tcacheThreads: set<I32>,
    tcacheBins: seq<BinTally>,
    overheadCount: U64,
    overheadBytes: U64)

  function Summarize(t: Tally): ChunkSummary {
    ChunkSummary(t.count, t.bytes, Buckets(t.histogram))
  }

  function Build(index: U32, isMain: bool, attached: seq<I32>, heaps: seq<Heap>, stats: ArenaStats): ArenaReport
    requires |heaps| < TWO64
  {
    ArenaReport(index, isMain, attached, Summary(heaps), Summarize(stats.alloc), Summarize(stats.free),
                stats.fastbins, stats.tcacheThreads, stats.tcacheBins, stats.overheadCount, stats.overheadBytes)
  }

  /** The entry for an arena that could not be walked. */
  function Stub(index: U32, isMain: bool, attached: seq<I32>): ArenaReport {
    ArenaReport(index, isMain, attached, HeapsSummary(0, 0, 0), ChunkSummary(0, 0, []), ChunkSummary(0, 0, []),
                [], {}, [], 0, 0)
  }

  // ----- Histograms list exactly the non-empty sizes, ascending -----

  ghost predicate Ascending(buckets: seq<SizeBucket>) {
    forall i, j :: 0 <= i < j < |buckets| ==> buckets[i].size < buckets[j].size
  }

  /** The buckets listed are the non-empty ones of `h`. */
  ghost predicate ListsBuckets(h: Histogram, buckets: seq<SizeBucket>) {
    && Ascending(buckets)
    && (forall i :: 0 <= i < |buckets| ==> TalliesSize(h, buckets[i]))
    && (forall size :: size in h && h[size] > 0 ==> exists i :: 0 <= i < |buckets| && buckets[i].size == size)
  }

  predicate TalliesSize(h: Histogram, b: SizeBucket) {
    b.size in h && b.count == h[b.size] > 0 && b.bytes == SaturatingMul(b.size, b.count)
  }

  lemma {:induction false} BucketsList(h: Histogram)
    ensures ListsBuckets(h, Buckets(h))
    decreases |h|
  {
    if h != map[] {
      var least := LeastSize(h);
      BucketsFromLeast(h);
      BucketsList(h - {least});
      hide Buckets;
      ConsBuckets(h, least, Buckets(h - {least}));
    }
  }

  lemma ConsBuckets(h: Histogram, least: U64, rest: seq<SizeBucket>)
    requires least in h && (forall size :: size in h ==> least <= size)
    requires ListsBuckets(h - {least}, rest)
    ensures ListsBuckets(h, (if h[least] > 0 then [SizeBucket(least, h[least], SaturatingMul(least, h[least]))] else [])
                            + rest)
  {
    hide SaturatingMul;
    var first := if h[least] > 0 then [SizeBucket(least, h[least], SaturatingMul(least, h[least]))] else [];
    var buckets := first + rest;
    forall i | |first| <= i < |buckets|
      ensures buckets[i] == rest[i - |first|] && TalliesSize(h, buckets[i]) && least < buckets[i].size
    {
      assert TalliesSize(h - {least}, rest[i - |first|]);
      assert buckets[i].size in h && buckets[i].size != least;
    }
    assert Ascending(buckets) by {
      hide TalliesSize;
      assert forall i, j :: 0 <= i < j < |rest| ==> rest[i].size < rest[j].size;
    }
    hide TalliesSize, Ascending;
    forall size | size in h && h[size] > 0
      ensures exists i :: 0 <= i < |buckets| && buckets[i].size == size
    {
      if size == least {
        assert buckets[0].size == size;
      } else {
        assert size in h - {least};
        var i :| 0 <= i < |rest| && rest[i].size == size;
        assert buckets[|first| + i].size == size;
      }
    }
  }

  /** The listing depends only on how many chunks there are of each size, not on the empty buckets kept. */
  lemma {:induction false} BucketsExtensional(h: Histogram, h': Histogram)
    requires forall size: U64 :: Bucket(h, size) == Bucket(h', size)
    ensures Buckets(h) == Buckets(h')
    decreases |h| + |h'|
  {
    hide Buckets;
    assert h' != map[] ==> Bucket(h, LeastSize(h')) == h'[LeastSize(h')];
    if h != map[] && h[LeastSize(h)] == 0 {
      BucketsFromLeast(h);
      DropBucket(h, LeastSize(h));
      BucketsExtensional(h - {LeastSize(h)}, h');
    } else if h' != map[] && h'[LeastSize(h')] == 0 {
      BucketsFromLeast(h');
      DropBucket(h', LeastSize(h'));
      BucketsExtensional(h, h' - {LeastSize(h')});
    } else if h != map[] {
      var k := LeastSize(h);
      SameLeast(h, h');
      assert Bucket(h, k) == Bucket(h', k);
      BucketsFromLeast(h);
      BucketsFromLeast(h');
      DropBucket(h, k);
      DropBucket(h', k);
      BucketsExtensional(h - {k}, h' - {k});
    }
  }

  function LeastSize(h: Histogram): U64
    requires h != map[]
  {
    assert h.Keys != {};
    MinKey(h.Keys)
  }

  lemma BucketsFromLeast(h: Histogram)
    requires h != map[]
    ensures var k := LeastSize(h);
            && k in h && (forall size :: size in h ==> k <= size)
            && |h - {k}| < |h|
            && Buckets(h) == (if h[k] > 0 then [SizeBucket(k, h[k], SaturatingMul(k, h[k]))] else []) + Buckets(h - {k})
            && (h[k] == 0 ==> Buckets(h) == Buckets(h - {k}))
  {
    assert h.Keys != {};
    assert forall size :: size in h ==> size in h.Keys;
    assert (h - {LeastSize(h)}).Keys == h.Keys - {LeastSize(h)};
  }

  lemma SameLeast(h: Histogram, h': Histogram)
    requires forall size: U64 :: Bucket(h, size) == Bucket(h', size)
    requires h != map[] && h[LeastSize(h)] > 0
    requires h' != map[] ==> h'[LeastSize(h')] > 0
    ensures h' != map[] && LeastSize(h') == LeastSize(h)
  {
    var k := LeastSize(h);
    assert Bucket(h', k) > 0;
    assert k in h'.Keys;
    var k' := LeastSize(h');
    assert Bucket(h, k') > 0;
    assert k' in h.Keys;
  }

  lemma DropBucket(h: Histogram, k: U64)
    ensures forall size: U64 :: Bucket(h - {k}, size) == if size == k then 0 else Bucket(h, size)
  {
  }

  lemma {:induction false} BucketsAddUp(h: Histogram)
    ensures Sum(Buckets(h), BucketCount()) == HistSum(h, Chunks)
    ensures HistSum(h, Bytes) < TWO64 ==> Sum(Buckets(h), BucketBytes()) == HistSum(h, Bytes)
    decreases |h|
  {
    if h != map[] {
      var least := LeastSize(h);
      var rest := h - {least};
      BucketsAddUp(rest);
      var first := if h[least] > 0 then [SizeBucket(least, h[least], SaturatingMul(least, h[least]))] else [];
      SumConcat(first, Buckets(rest), BucketCount());
      SumConcat(first, Buckets(rest), BucketBytes());
      if first != [] {
        assert first[..0] == [];
      }
      assert Area(least, h[least]) == (least as int) * (h[least] as int);
    }
  }

  // ----- What the reported totals mean -----

  function CachedWeight(members: Membership): ChunkEvent -> nat {
    (e: ChunkEvent) => if e.prevInuseSaysInUse && e.userAddr in members then 1 else 0
  }

  function ClearedWeight(): ChunkEvent -> nat {
    (e: ChunkEvent) => if e.prevInuseSaysInUse then 0 else 1
  }

  /** Chunks cached in one bin. */
  function CachedInBin(members: Membership, bin: U32): ChunkEvent -> nat {
    (e: ChunkEvent) => if e.prevInuseSaysInUse && e.userAddr in members && members[e.userAddr].bin == bin then 1 else 0
  }

  lemma {:induction false} CachedCounts(events: seq<ChunkEvent>, members: Membership)
    requires |events| < TWO64
    ensures HistSum(PostAll(events, members).cached, Chunks) == Sum(events, CachedWeight(members)) <= |events|
    ensures forall bin: U32 ::
              BinCount(PostAll(events, members).cached, bin) == Sum(events, CachedInBin(members, bin))
    ensures forall bin :: bin in PostAll(events, members).cached ==> PostAll(events, members).cached[bin] > 0
  {
    if events != [] {
      var before, e := events[..|events| - 1], events[|events| - 1];
      CachedCounts(before, members);
      if e.prevInuseSaysInUse && e.userAddr in members {
        var cached := PostAll(before, members).cached;
        var bin := members[e.userAddr].bin;
        BucketWithinSum(cached, bin, BinCount(cached, bin), Chunks);
        HistSumUpdate(cached, bin, BinCount(cached, bin) + 1, Chunks);
      }
    }
  }

  predicate TalliesBin(cached: map<U32, U64>, b: BinTally) {
    && b.index in cached && b.count == cached[b.index] && b.size == BinIndexToSize(b.index)
    && b.bytes == SaturatingMul(b.size, b.count)
  }

  /** The bins listed are the keys of `cached`, each with its count and nominal size. */
  ghost predicate ListsBins(cached: map<U32, U64>, bins: seq<BinTally>) {
    && (forall i, j :: 0 <= i < j < |bins| ==> bins[i].index < bins[j].index)
    && (forall i :: 0 <= i < |bins| ==> TalliesBin(cached, bins[i]))
    && (forall bin :: bin in cached ==> exists i :: 0 <= i < |bins| && bins[i].index == bin)
  }

  lemma TcacheBinsFromLeast(cached: map<U32, U64>) returns (first: BinTally)
    requires cached != map[]
    ensures TalliesBin(cached, first)
    ensures forall bin :: bin in cached ==> first.index <= bin
    ensures TcacheBins(cached) == [first] + TcacheBins(cached - {first.index})
    ensures |cached - {first.index}| < |cached|
    ensures HistSum(cached, Chunks) == first.count + HistSum(cached - {first.index}, Chunks)
  {
    assert cached.Keys != {};
    var bin: U32 := MinKey(cached.Keys);
    var size := BinIndexToSize(bin);
    first := BinTally(bin, size, cached[bin], SaturatingMul(size, cached[bin]));
    assert forall k :: k in cached ==> k in cached.Keys;
    assert (cached - {bin}).Keys == cached.Keys - {bin};
    HistSumExtract(cached, bin, Chunks);
  }

  /** The tcache bins are listed in ascending order, one entry for each counted bin. */
  lemma {:induction false} TcacheBinsList(cached: map<U32, U64>)
    ensures ListsBins(cached, TcacheBins(cached))
    ensures Sum(TcacheBins(cached), BinChunks()) == HistSum(cached, Chunks)
    decreases |cached|
  {
    hide HistSum;
    if cached != map[] {
      var first := TcacheBinsFromLeast(cached);
      var rest := cached - {first.index};
      TcacheBinsList(rest);
      hide TcacheBins;
      SumConcat([first], TcacheBins(rest), BinChunks());
      assert [first][..0] == [];
      ConsBins(cached, first, TcacheBins(rest));
    } else {
      NoBins();
    }
  }

  lemma NoBins()
    ensures TcacheBins(map[]) == [] && HistSum(map[], Chunks) == 0
  {
  }

  lemma TalliesLater(cached: map<U32, U64>, first: BinTally, b: BinTally)
    requires TalliesBin(cached - {first.index}, b)
    requires forall bin :: bin in cached ==> first.index <= bin
    ensures TalliesBin(cached, b) && first.index < b.index
  {
    hide SaturatingMul, BinIndexToSize;
    assert b.index in cached && b.index != first.index;
  }

  lemma ConsBins(cached: map<U32, U64>, first: BinTally, rest: seq<BinTally>)
    requires TalliesBin(cached, first)
    requires forall bin :: bin in cached ==> first.index <= bin
    requires ListsBins(cached - {first.index}, rest)
    ensures ListsBins(cached, [first] + rest)
  {
    hide TalliesBin;
    var bins := [first] + rest;
    forall j | 0 < j < |bins|
      ensures bins[j] == rest[j - 1] && TalliesBin(cached, bins[j]) && first.index < bins[j].index
    {
      TalliesLater(cached, first, rest[j - 1]);
    }
    forall bin | bin in cached
      ensures exists i :: 0 <= i < |bins| && bins[i].index == bin
    {
      if bin == first.index {
        assert bins[0].index == bin;
      } else {
        assert bin in cached - {first.index};
        var i :| 0 <= i < |rest| && rest[i].index == bin;
        assert bins[i + 1].index == bin;
      }
    }
  }

  lemma {:induction false} FastbinTalliesCount(b: Books, fastbins: seq<FastbinResult>, arena: U32)
    ensures Sum(MoveAll(b, fastbins, arena).fastbins, BinChunks()) == Sum(fastbins, MovedWeight(Chunks))
  {
    if fastbins != [] {
      var before, fb := fastbins[..|fastbins| - 1], fastbins[|fastbins| - 1];
      FastbinTalliesCount(b, before, arena);
      var tallies := MoveAll(b, before, arena).fastbins;
      var last := BinTally(fb.index, fb.size, fb.count, SaturatingMul(fb.size, fb.count));
      assert (tallies + [last])[..|tallies|] == tallies;
    }
  }

  lemma {:induction false} FreeIsCachedOrCleared(events: seq<ChunkEvent>, members: Membership)
    ensures Sum(events, FreeWeight(members, Chunks)) == Sum(events, CachedWeight(members)) + Sum(events, ClearedWeight())
  {
    if events != [] {
      FreeIsCachedOrCleared(events[..|events| - 1], members);
    }
  }

  /**
   * When nothing is reported, the histograms are well formed, counts agree with them with no assumption, and
   * bytes whenever they fit 64 bits.
   */
  lemma ReportedTotalsAgree(
      arena: U32, events: seq<ChunkEvent>, members: Membership, fastbins: seq<FastbinResult>)
    requires |events| < TWO64
    requires Account(arena, events, members, fastbins).1 == []
    ensures var stats := Account(arena, events, members, fastbins).0;
            var alloc, free := Summarize(stats.alloc), Summarize(stats.free);
            && ListsBuckets(stats.alloc.histogram, alloc.sizeHistogram)
            && ListsBuckets(stats.free.histogram, free.sizeHistogram)
            && alloc.count == Sum(alloc.sizeHistogram, BucketCount())
            && (Sum(events, AllocWeight(members, Bytes)) < TWO64 ==>
                  alloc.bytes == Sum(alloc.sizeHistogram, BucketBytes()))
            && free.count == Sum(free.sizeHistogram, BucketCount())
            && (Sum(events, FreeWeight(members, Bytes)) + Sum(fastbins, MovedWeight(Bytes)) < TWO64 ==>
                  free.bytes == Sum(free.sizeHistogram, BucketBytes()))
            && alloc.count + free.count == |events| == stats.overheadCount
            && free.count == Sum(stats.fastbins, BinChunks()) + Sum(stats.tcacheBins, BinChunks())
                             + Sum(events, ClearedWeight())
  {
    var stats := Account(arena, events, members, fastbins).0;
    SilentMeansExact(arena, events, members, fastbins);
    BucketsList(stats.alloc.histogram);
    BucketsList(stats.free.histogram);
    BucketsAddUp(stats.alloc.histogram);
    BucketsAddUp(stats.free.histogram);
    PartitionCounts(events, members);
    CachedCounts(events, members);
    TcacheBinsList(PostAll(events, members).cached);
    FastbinTalliesCount(PostAll(events, members), fastbins, arena);
    FreeIsCachedOrCleared(events, members);
    assert Reading(stats.alloc, Chunks) == stats.alloc.count && Reading(stats.free, Chunks) == stats.free.count;
  }

  /** Even when the books do not balance, no chunk goes unlisted. */
  lemma EvenWhenInconsistent(
      arena: U32, events: seq<ChunkEvent>, members: Membership, fastbins: seq<FastbinResult>)
    requires |events| < TWO64
    ensures var stats := Account(arena, events, members, fastbins).0;
            && stats.alloc.count <= Sum(Buckets(stats.alloc.histogram), BucketCount())
            && stats.overheadCount <= stats.alloc.count + stats.free.count
  {
    var stats := Account(arena, events, members, fastbins).0;
    PostedCounted(events, members);
    CountNeverExceedsHistogram(PostAll(events, members), fastbins, arena);
    BucketsAddUp(stats.alloc.histogram);
    ClosedForm(arena, events, members, fastbins, Chunks);
    PartitionCounts(events, members);
    assert Reading(stats.alloc, Chunks) == stats.alloc.count && Reading(stats.free, Chunks) == stats.free.count;
  }

  lemma {:induction false} CountNeverExceedsHistogram(b: Books, fastbins: seq<FastbinResult>, arena: U32)
    requires Counted(b.alloc)
    ensures var t := MoveAll(b, fastbins, arena).alloc; t.count <= HistSum(t.histogram, Chunks)
  {
    if fastbins != [] {
      var before, fb := fastbins[..|fastbins| - 1], fastbins[|fastbins| - 1];
      CountNeverExceedsHistogram(b, before, arena);
      var t := MoveAll(b, before, arena).alloc;
      HistSumUpdate(t.histogram, fb.size, SaturatingSub(Bucket(t.histogram, fb.size), fb.count), Chunks);
    }
  }
}
