/** What the accumulated totals are, in closed form, and when the books balance. */
module Accounting {
  import opened Words
  import opened Memory
  import opened FreeLists
  import opened ChunkWalk
  import opened Sums
  import opened Stats

  predicate IsAllocated(e: ChunkEvent, members: Membership) {
    e.prevInuseSaysInUse && e.userAddr !in members
  }

  function AllocWeight(members: Membership, m: Measure): ChunkEvent -> nat {
    (e: ChunkEvent) => if IsAllocated(e, members) then Weigh(m, e.userSize, 1) else 0
  }

  function FreeWeight(members: Membership, m: Measure): ChunkEvent -> nat {
    (e: ChunkEvent) => if IsAllocated(e, members) then 0 else Weigh(m, e.userSize, 1)
  }

  function MovedWeight(m: Measure): FastbinResult -> nat {
    (fb: FastbinResult) => Weigh(m, fb.size, fb.count)
  }

  lemma {:induction false} PostedReading(events: seq<ChunkEvent>, members: Membership, m: Measure)
    ensures Reading(PostAll(events, members).alloc, m) == Min(Sum(events, AllocWeight(members, m)), MAX_U64)
    ensures Reading(PostAll(events, members).free, m) == Min(Sum(events, FreeWeight(members, m)), MAX_U64)
  {
    if events != [] {
      var before, e := events[..|events| - 1], events[|events| - 1];
      PostedReading(before, members, m);
      AddedReading(PostAll(before, members).alloc, e.userSize, 1, m);
      AddedReading(PostAll(before, members).free, e.userSize, 1, m);
    }
  }

  lemma {:induction false} MovedReading(b: Books, fastbins: seq<FastbinResult>, arena: U32, m: Measure)
    ensures var t := MoveAll(b, fastbins, arena);
            && Reading(t.alloc, m) == Max(Reading(b.alloc, m) - Sum(fastbins, MovedWeight(m)), 0)
            && Reading(t.free, m) == Min(Reading(b.free, m) + Sum(fastbins, MovedWeight(m)), MAX_U64)
  {
    if fastbins != [] {
      var before, fb := fastbins[..|fastbins| - 1], fastbins[|fastbins| - 1];
      MovedReading(b, before, arena, m);
      var t := MoveAll(b, before, arena);
      RemovedReading(t.alloc, fb.size, fb.count, m);
      AddedReading(t.free, fb.size, fb.count, m);
      if fb.count == 0 {
        assert Weigh(m, fb.size, fb.count) == 0;
      }
    }
  }

  /**
   * Every total, whatever the events, the owners and the fastbin results: allocated is what the walk saw,
   * less what the fastbins claim and never below zero; free is what the walk saw, plus what the fastbins claim.
   */
  lemma ClosedForm(
      arena: U32, events: seq<ChunkEvent>, members: Membership, fastbins: seq<FastbinResult>, m: Measure)
    requires |events| < TWO64
    ensures var stats := Account(arena, events, members, fastbins).0;
            && Reading(stats.alloc, m)
               == Max(Min(Sum(events, AllocWeight(members, m)), MAX_U64) - Sum(fastbins, MovedWeight(m)), 0)
            && Reading(stats.free, m)
               == Min(Sum(events, FreeWeight(members, m)) + Sum(fastbins, MovedWeight(m)), MAX_U64)
  {
    hide PostAll, MoveAll, Reading;
    PostedReading(events, members, m);
    MovedReading(PostAll(events, members), fastbins, arena, m);
  }

  // ----- Histogram totals -----

  ghost function HistSum(h: map<nat, nat>, m: Measure): nat
    decreases |h|
  {
    if h == map[] then 0
    else
      assert h.Keys != {};
      var k := MinKey(h.Keys);
      Weigh(m, k, h[k]) + HistSum(h - {k}, m)
  }

  /** Any bucket can be taken out first. */
  lemma {:induction false} HistSumExtract(h: map<nat, nat>, k: nat, m: Measure)
    requires k in h
    ensures HistSum(h, m) == Weigh(m, k, h[k]) + HistSum(h - {k}, m)
    decreases |h|
  {
    var least := MinKey(h.Keys);
    if k != least {
      HistSumExtract(h - {least}, k, m);
      assert (h - {k}).Keys == h.Keys - {k};
      assert least in (h - {k}).Keys && MinKey((h - {k}).Keys) == least;
      assert h - {least} - {k} == h - {k} - {least};
    }
  }

  lemma HistSumUpdate(h: map<nat, nat>, k: nat, n: nat, m: Measure)
    ensures HistSum(h[k := n], m) == HistSum(h, m) - Weigh(m, k, if k in h then h[k] else 0) + Weigh(m, k, n)
  {
    var h' := h[k := n];
    HistSumExtract(h', k, m);
    if k in h {
      HistSumExtract(h, k, m);
      assert h' - {k} == h - {k};
    } else {
      assert h' - {k} == h;
      assert Weigh(m, k, 0) == 0;
    }
  }

  lemma BucketWithinSum(h: map<nat, nat>, k: nat, n: nat, m: Measure)
    requires n <= if k in h then h[k] else 0
    ensures Weigh(m, k, n) <= HistSum(h, m)
  {
    if k in h {
      HistSumExtract(h, k, m);
      AreaMonotone(k, n, h[k]);
    } else {
      assert Weigh(m, k, 0) == 0;
    }
  }

  lemma AreaMonotone(size: nat, n: nat, n': nat)
    requires n <= n'
    ensures Area(size, n) <= Area(size, n')
  {
    assert Area(size, n') - Area(size, n) == size * (n' - n);
  }

  lemma WeighSum(m: Measure, size: nat, n: nat, n': nat)
    ensures Weigh(m, size, n) + Weigh(m, size, n') == Weigh(m, size, n + n')
  {
  }

  lemma AddedHistogram(t: Tally, size: U64, n: U64, m: Measure)
    requires Bucket(t.histogram, size) + n < TWO64
    ensures HistSum(Added(t, size, n).histogram, m) == HistSum(t.histogram, m) + Weigh(m, size, n)
  {
    hide HistSum, Weigh;
    var before := Bucket(t.histogram, size);
    HistSumUpdate(t.histogram, size, before + n, m);
    WeighSum(m, size, before, n);
  }

  lemma RemovedHistogram(t: Tally, size: U64, n: U64, m: Measure)
    requires n <= Bucket(t.histogram, size)
    ensures HistSum(Removed(t, size, n).histogram, m) == HistSum(t.histogram, m) - Weigh(m, size, n)
  {
    hide HistSum, Weigh;
    var before := Bucket(t.histogram, size);
    HistSumUpdate(t.histogram, size, before - n, m);
    WeighSum(m, size, before - n, n);
  }

  /** The histogram of a tally adds up to its count. */
  ghost predicate Counted(t: Tally) {
    HistSum(t.histogram, Chunks) == t.count
  }

  /** The histogram of a tally adds up to its count and to its bytes. */
  ghost predicate Balanced(t: Tally) {
    Counted(t) && HistSum(t.histogram, Bytes) == t.bytes
  }

  lemma RemovedCounted(t: Tally, size: U64, n: U64)
    requires Counted(t) && n <= Bucket(t.histogram, size)
    ensures !Underflows(t, size, n)
    ensures Counted(Removed(t, size, n))
  {
    BucketWithinSum(t.histogram, size, n, Chunks);
    RemovedHistogram(t, size, n, Chunks);
  }

  lemma {:induction false} WeighAtMost(members: Membership, m: Measure, events: seq<ChunkEvent>)
    requires !m.Bytes?
    ensures Sum(events, AllocWeight(members, m)) + Sum(events, FreeWeight(members, m)) <= |events|
  {
    if events != [] {
      WeighAtMost(members, m, events[..|events| - 1]);
    }
  }

  /** The histograms of the posted events add up to the events, in every measure: buckets are never clamped. */
  lemma {:induction false} PostedHistogram(events: seq<ChunkEvent>, members: Membership, m: Measure)
    requires |events| < TWO64
    ensures HistSum(PostAll(events, members).alloc.histogram, m) == Sum(events, AllocWeight(members, m))
    ensures HistSum(PostAll(events, members).free.histogram, m) == Sum(events, FreeWeight(members, m))
  {
    if events != [] {
      var before, e := events[..|events| - 1], events[|events| - 1];
      PostedHistogram(before, members, m);
      PostedReading(before, members, OfSize(e.userSize));
      WeighAtMost(members, OfSize(e.userSize), before);
      if IsAllocated(e, members) {
        AddedHistogram(PostAll(before, members).alloc, e.userSize, 1, m);
      } else {
        AddedHistogram(PostAll(before, members).free, e.userSize, 1, m);
      }
    }
  }

  /** Posting events keeps both tallies counted, and balanced exactly while their payload bytes fit 64 bits. */
  lemma PostedCounted(events: seq<ChunkEvent>, members: Membership)
    requires |events| < TWO64
    ensures var b := PostAll(events, members);
            && Counted(b.alloc) && Counted(b.free)
            && (Balanced(b.alloc) <==> Sum(events, AllocWeight(members, Bytes)) < TWO64)
            && (Balanced(b.free) <==> Sum(events, FreeWeight(members, Bytes)) < TWO64)
  {
    hide PostAll, HistSum;
    PostedHistogram(events, members, Chunks);
    PostedHistogram(events, members, Bytes);
    PostedReading(events, members, Chunks);
    PostedReading(events, members, Bytes);
    WeighAtMost(members, Chunks, events);
  }

  /** No size is claimed more often by the fastbins than `t` has it. */
  ghost predicate BucketsSuffice(t: Tally, fastbins: seq<FastbinResult>) {
    forall size: U64 :: Sum(fastbins, MovedWeight(OfSize(size))) <= Bucket(t.histogram, size)
  }

  /** Moving the fastbin chunks is silent exactly when every bucket suffices, and then the count is exact. */
  lemma {:induction false} SilentMove(b: Books, fastbins: seq<FastbinResult>, arena: U32)
    requires Counted(b.alloc)
    ensures var t := MoveAll(b, fastbins, arena);
            && (t.problems == [] <==> BucketsSuffice(b.alloc, fastbins))
            && (t.problems == [] ==> Counted(t.alloc) && Sum(fastbins, MovedWeight(Chunks)) <= b.alloc.count)
  {
    if fastbins != [] {
      var before, fb := fastbins[..|fastbins| - 1], fastbins[|fastbins| - 1];
      SilentMove(b, before, arena);
      var t := MoveAll(b, before, arena);
      MovedReading(b, before, arena, OfSize(fb.size));
      MovedReading(b, before, arena, Chunks);
      SufficeStep(b.alloc, before, fb);
      assert before + [fb] == fastbins;
      if t.problems == [] && fb.count <= Bucket(t.alloc.histogram, fb.size) {
        RemovedCounted(t.alloc, fb.size, fb.count);
      }
    }
  }

  /** A silent move takes exactly what the fastbins claim from one histogram, and adds it to the other. */
  lemma {:induction false} MovedHistogram(b: Books, fastbins: seq<FastbinResult>, arena: U32, m: Measure)
    requires MoveAll(b, fastbins, arena).problems == []
    requires forall size: U64 ::
               Bucket(b.free.histogram, size) + Sum(fastbins, MovedWeight(OfSize(size))) < TWO64
    ensures var t := MoveAll(b, fastbins, arena);
            && HistSum(t.alloc.histogram, m) == HistSum(b.alloc.histogram, m) - Sum(fastbins, MovedWeight(m))
            && HistSum(t.free.histogram, m) == HistSum(b.free.histogram, m) + Sum(fastbins, MovedWeight(m))
  {
    hide HistSum, Weigh;
    if fastbins != [] {
      var before, fb := fastbins[..|fastbins| - 1], fastbins[|fastbins| - 1];
      var t := MoveAll(b, before, arena);
      assert Sum(fastbins, MovedWeight(m)) == Sum(before, MovedWeight(m)) + Weigh(m, fb.size, fb.count);
      NothingMoved(m, fb.size);
      MovedHistogram(b, before, arena, m);
      MovedReading(b, before, arena, OfSize(fb.size));
      ClaimsOwnSize(before, fb);
      if fb.count > 0 {
        RemovedHistogram(t.alloc, fb.size, fb.count, m);
        AddedHistogram(t.free, fb.size, fb.count, m);
      }
    }
  }

  lemma NothingMoved(m: Measure, size: nat)
    ensures Weigh(m, size, 0) == 0
  {
  }

  lemma ClaimsOwnSize(before: seq<FastbinResult>, fb: FastbinResult)
    ensures Sum(before + [fb], MovedWeight(OfSize(fb.size))) == Sum(before, MovedWeight(OfSize(fb.size))) + fb.count
  {
    assert (before + [fb])[..|before|] == before;
  }

  lemma SufficeStep(t: Tally, before: seq<FastbinResult>, fb: FastbinResult)
    ensures BucketsSuffice(t, before + [fb])
       <==> BucketsSuffice(t, before)
            && Sum(before, MovedWeight(OfSize(fb.size))) + fb.count <= Bucket(t.histogram, fb.size)
  {
    forall size: U64
      ensures Sum(before + [fb], MovedWeight(OfSize(size)))
           == Sum(before, MovedWeight(OfSize(size))) + if size == fb.size then fb.count else 0
    {
      assert (before + [fb])[..|before|] == before;
    }
  }

  /** An inconsistency is reported exactly when the fastbins claim more chunks of some size than are allocated. */
  lemma InconsistencyExactly(arena: U32, events: seq<ChunkEvent>, members: Membership, fastbins: seq<FastbinResult>)
    requires |events| < TWO64
    ensures Account(arena, events, members, fastbins).1 == []
       <==> forall size: U64 ::
              Sum(fastbins, MovedWeight(OfSize(size))) <= Sum(events, AllocWeight(members, OfSize(size)))
  {
    var b := PostAll(events, members);
    PostedCounted(events, members);
    SilentMove(b, fastbins, arena);
    forall size: U64
      ensures Bucket(b.alloc.histogram, size) == Sum(events, AllocWeight(members, OfSize(size)))
    {
      PostedReading(events, members, OfSize(size));
      WeighAtMost(members, OfSize(size), events);
    }
  }

  /** When nothing is reported, the histograms are what plain addition and subtraction give, in every measure. */
  lemma SilentHistograms(
      arena: U32, events: seq<ChunkEvent>, members: Membership, fastbins: seq<FastbinResult>, m: Measure)
    requires |events| < TWO64
    requires Account(arena, events, members, fastbins).1 == []
    ensures Sum(fastbins, MovedWeight(m)) <= Sum(events, AllocWeight(members, m))
    ensures var stats := Account(arena, events, members, fastbins).0;
            && HistSum(stats.alloc.histogram, m)
               == Sum(events, AllocWeight(members, m)) - Sum(fastbins, MovedWeight(m))
            && HistSum(stats.free.histogram, m)
               == Sum(events, FreeWeight(members, m)) + Sum(fastbins, MovedWeight(m))
  {
    hide PostAll, MoveAll, HistSum;
    var b := PostAll(events, members);
    PostedHistogram(events, members, m);
    InconsistencyExactly(arena, events, members, fastbins);
    forall size: U64
      ensures Bucket(b.free.histogram, size) + Sum(fastbins, MovedWeight(OfSize(size))) < TWO64
    {
      PostedReading(events, members, OfSize(size));
      WeighAtMost(members, OfSize(size), events);
    }
    MovedHistogram(b, fastbins, arena, m);
  }

  /**
   * The fastbins, in order, that are reported: those with which the bins so far claim more chunks than are allocated,
   * of that size or altogether.
   */
  ghost function Overdrawn(
      arena: U32, events: seq<ChunkEvent>, members: Membership, fastbins: seq<FastbinResult>): seq<Problem>
  {
    if fastbins == [] then []
    else
      var fb := fastbins[|fastbins| - 1];
      Overdrawn(arena, events, members, fastbins[..|fastbins| - 1])
      + if fb.count > 0 && (|| Sum(fastbins, MovedWeight(OfSize(fb.size))) > Sum(events, AllocWeight(members, OfSize(fb.size)))
                            || Sum(fastbins, MovedWeight(Chunks)) > Sum(events, AllocWeight(members, Chunks)))
        then [StatsInconsistent(arena, fb.size)] else []
  }

  /** Exactly these are reported, in order. */
  lemma ReportsOverdrawn(arena: U32, events: seq<ChunkEvent>, members: Membership, fastbins: seq<FastbinResult>)
    requires |events| < TWO64
    ensures Account(arena, events, members, fastbins).1 == Overdrawn(arena, events, members, fastbins)
  {
    hide Overdrawn, PostAll, MoveAll;
    MoveReportsOverdrawn(arena, events, members, fastbins);
  }

  lemma {:induction false} MoveReportsOverdrawn(
      arena: U32, events: seq<ChunkEvent>, members: Membership, fastbins: seq<FastbinResult>)
    requires |events| < TWO64
    ensures MoveAll(PostAll(events, members), fastbins, arena).problems == Overdrawn(arena, events, members, fastbins)
  {
    hide PostAll, Reading, Removed, Added, Sum, Weigh;
    if fastbins != [] {
      var before, fb := fastbins[..|fastbins| - 1], fastbins[|fastbins| - 1];
      var b := PostAll(events, members);
      MoveReportsOverdrawn(arena, events, members, before);
      Drawn(arena, events, members, before, OfSize(fb.size));
      Drawn(arena, events, members, before, Chunks);
      assert before + [fb] == fastbins;
      ClaimsOwnSize(before, fb);
      ClaimsAll(before, fb);
      ReadsBuckets(MoveAll(b, before, arena).alloc, fb.size);
    }
  }

  lemma ClaimsAll(before: seq<FastbinResult>, fb: FastbinResult)
    ensures Sum(before + [fb], MovedWeight(Chunks)) == Sum(before, MovedWeight(Chunks)) + fb.count
  {
    assert (before + [fb])[..|before|] == before;
  }

  lemma ReadsBuckets(t: Tally, size: U64)
    ensures Reading(t, Chunks) == t.count && Reading(t, OfSize(size)) == Bucket(t.histogram, size)
  {
  }

  /** What is left after some bins: nothing, when they claim more than there is. */
  lemma Drawn(arena: U32, events: seq<ChunkEvent>, members: Membership, fastbins: seq<FastbinResult>, m: Measure)
    requires |events| < TWO64 && m != Bytes
    ensures Reading(MoveAll(PostAll(events, members), fastbins, arena).alloc, m)
         == Max(Sum(events, AllocWeight(members, m)) - Sum(fastbins, MovedWeight(m)), 0)
  {
    PostedReading(events, members, m);
    MovedReading(PostAll(events, members), fastbins, arena, m);
    WeighAtMost(members, m, events);
  }

  /**
   * The documentation says that a reported size is one that the fastbins claim more often than it is allocated. All
   * such sizes are reported; but after one of them others may be, whose buckets suffice.
   */
  lemma OverclaimedSizesAreReported(
      arena: U32, events: seq<ChunkEvent>, members: Membership, fastbins: seq<FastbinResult>, size: U64)
    requires |events| < TWO64
    requires Sum(fastbins, MovedWeight(OfSize(size))) > Sum(events, AllocWeight(members, OfSize(size)))
    ensures StatsInconsistent(arena, size) in Account(arena, events, members, fastbins).1
  {
    ReportsOverdrawn(arena, events, members, fastbins);
    OverclaimedIsOverdrawn(arena, events, members, fastbins, size);
  }

  lemma {:induction false} OverclaimedIsOverdrawn(
      arena: U32, events: seq<ChunkEvent>, members: Membership, fastbins: seq<FastbinResult>, size: U64)
    requires Sum(fastbins, MovedWeight(OfSize(size))) > Sum(events, AllocWeight(members, OfSize(size)))
    ensures StatsInconsistent(arena, size) in Overdrawn(arena, events, members, fastbins)
  {
    var before, fb := fastbins[..|fastbins| - 1], fastbins[|fastbins| - 1];
    if Sum(before, MovedWeight(OfSize(size))) > Sum(events, AllocWeight(members, OfSize(size))) {
      OverclaimedIsOverdrawn(arena, events, members, before, size);
    }
  }

  /** An instance: size 24 claims three of one chunk; size 40, which claims the one it has, is reported too. */
  lemma SufficientSizeReported(arena: U32)
    ensures var events := [ChunkEvent(0x108, 0x110, 24, 32, true), ChunkEvent(0x128, 0x130, 40, 48, true)];
            var fastbins := [FastbinResult(0, 24, 3), FastbinResult(1, 40, 1)];
            && Sum(fastbins, MovedWeight(OfSize(40))) == Sum(events, AllocWeight(map[], OfSize(40))) == 1
            && Account(arena, events, map[], fastbins).1 == [StatsInconsistent(arena, 24), StatsInconsistent(arena, 40)]
  {
    var e, e' := ChunkEvent(0x108, 0x110, 24, 32, true), ChunkEvent(0x128, 0x130, 40, 48, true);
    var fb, fb' := FastbinResult(0, 24, 3), FastbinResult(1, 40, 1);
    ReportsOverdrawn(arena, [e, e'], map[], [fb, fb']);
    assert [e, e'][..1] == [e] && [e][..0] == [] && [fb, fb'][..1] == [fb] && [fb][..0] == [];
    forall f: ChunkEvent -> nat
      ensures Sum([e, e'], f) == f(e) + f(e')
    {
      assert Sum([e], f) == f(e);
    }
    forall g: FastbinResult -> nat
      ensures Sum([fb], g) == g(fb) && Sum([fb, fb'], g) == g(fb) + g(fb')
    {
    }
    var none, first := Overdrawn(arena, [e, e'], map[], []), Overdrawn(arena, [e, e'], map[], [fb]);
    assert none == [];
    assert first == none + [StatsInconsistent(arena, 24)];
    assert Overdrawn(arena, [e, e'], map[], [fb, fb']) == first + [StatsInconsistent(arena, 40)];
  }

  /**
   * When nothing is reported, counts and buckets are plain sums and differences, with no assumption; so are the
   * bytes exactly when they fit 64 bits (or all allocated bytes are moved, which leaves none either way).
   */
  lemma SilentMeansExact(arena: U32, events: seq<ChunkEvent>, members: Membership, fastbins: seq<FastbinResult>)
    requires |events| < TWO64
    requires Account(arena, events, members, fastbins).1 == []
    ensures var stats := Account(arena, events, members, fastbins).0;
            var seenAlloc, seenFree, moved :=
              Sum(events, AllocWeight(members, Bytes)), Sum(events, FreeWeight(members, Bytes)),
              Sum(fastbins, MovedWeight(Bytes));
            && (forall m :: m != Bytes ==>
                  && Reading(stats.alloc, m) == Sum(events, AllocWeight(members, m)) - Sum(fastbins, MovedWeight(m))
                  && Reading(stats.free, m) == Sum(events, FreeWeight(members, m)) + Sum(fastbins, MovedWeight(m)))
            && moved <= seenAlloc
            && (stats.alloc.bytes == seenAlloc - moved <==> seenAlloc < TWO64 || moved == seenAlloc)
            && (stats.free.bytes == seenFree + moved <==> seenFree + moved < TWO64)
            && Counted(stats.alloc) && Counted(stats.free)
            && (Balanced(stats.alloc) <==> seenAlloc < TWO64 || moved == seenAlloc)
            && (Balanced(stats.free) <==> seenFree + moved < TWO64)
  {
    hide Account, HistSum;
    SilentHistograms(arena, events, members, fastbins, Chunks);
    SilentHistograms(arena, events, members, fastbins, Bytes);
    ExactReading(arena, events, members, fastbins, Chunks);
    ClosedForm(arena, events, members, fastbins, Bytes);
    forall m: Measure | m != Bytes
      ensures var stats := Account(arena, events, members, fastbins).0;
              && Reading(stats.alloc, m) == Sum(events, AllocWeight(members, m)) - Sum(fastbins, MovedWeight(m))
              && Reading(stats.free, m) == Sum(events, FreeWeight(members, m)) + Sum(fastbins, MovedWeight(m))
    {
      ExactReading(arena, events, members, fastbins, m);
    }
    ReadsBytes(Account(arena, events, members, fastbins).0.alloc);
    ReadsBytes(Account(arena, events, members, fastbins).0.free);
  }

  /**
   * When nothing is reported, allocated and free bytes make up all payload bytes exactly when neither total is
   * clamped: both fit 64 bits (or all allocated bytes are moved).
   */
  lemma SilentBytesAddUpExactly(
      arena: U32, events: seq<ChunkEvent>, members: Membership, fastbins: seq<FastbinResult>)
    requires |events| < TWO64
    requires Account(arena, events, members, fastbins).1 == []
    ensures var stats := Account(arena, events, members, fastbins).0;
            var seenAlloc, seenFree, moved :=
              Sum(events, AllocWeight(members, Bytes)), Sum(events, FreeWeight(members, Bytes)),
              Sum(fastbins, MovedWeight(Bytes));
            && moved <= seenAlloc
            && (stats.alloc.bytes + stats.free.bytes == seenAlloc + seenFree <==>
                (seenAlloc < TWO64 || moved == seenAlloc) && seenFree + moved < TWO64)
  {
    hide Account;
    SilentMeansExact(arena, events, members, fastbins);
    ClosedForm(arena, events, members, fastbins, Bytes);
    ReadsBytes(Account(arena, events, members, fastbins).0.alloc);
    ReadsBytes(Account(arena, events, members, fastbins).0.free);
  }

  lemma ExactReading(
      arena: U32, events: seq<ChunkEvent>, members: Membership, fastbins: seq<FastbinResult>, m: Measure)
    requires |events| < TWO64 && m != Bytes
    requires Account(arena, events, members, fastbins).1 == []
    ensures var stats := Account(arena, events, members, fastbins).0;
            && Reading(stats.alloc, m) == Sum(events, AllocWeight(members, m)) - Sum(fastbins, MovedWeight(m))
            && Reading(stats.free, m) == Sum(events, FreeWeight(members, m)) + Sum(fastbins, MovedWeight(m))
  {
    hide Account, Reading;
    SilentHistograms(arena, events, members, fastbins, m);
    ClosedForm(arena, events, members, fastbins, m);
    WeighAtMost(members, m, events);
  }

  lemma ReadsBytes(t: Tally)
    ensures Reading(t, Chunks) == t.count && Reading(t, Bytes) == t.bytes
  {
  }

  // ----- Conservation -----

  /** For any memory: a silent main walk and silent books account for every byte of the region. */
  lemma BytesAreConserved(
      mem: Mem, arena: U32, start: U64, end: U64, members: Membership, fastbins: seq<FastbinResult>)
    requires Walk(mem, arena, start, end, true).1 == []
    ensures |Walk(mem, arena, start, end, true).0| < TWO64
    ensures var events := Walk(mem, arena, start, end, true).0;
            Account(arena, events, members, fastbins).1 == [] ==>
              var stats := Account(arena, events, members, fastbins).0;
              && stats.alloc.bytes + stats.free.bytes + stats.overheadBytes == end - start
              && stats.alloc.count + stats.free.count == stats.overheadCount == |events|
              && stats.overheadBytes == HEADER_SIZE * |events|
              && stats.alloc.bytes
                 == Sum(events, AllocWeight(members, Bytes)) - Sum(fastbins, MovedWeight(Bytes))
              && stats.free.bytes
                 == Sum(events, FreeWeight(members, Bytes)) + Sum(fastbins, MovedWeight(Bytes))
  {
    var events := Walk(mem, arena, start, end, true).0;
    EventsTile(mem, arena, start, end, true);
    PayloadOfRegion(mem, start, end, events, members);
    PartitionCounts(events, members);
    if Account(arena, events, members, fastbins).1 == [] {
      SilentMeansExact(arena, events, members, fastbins);
      var stats := Account(arena, events, members, fastbins).0;
      assert Reading(stats.alloc, Chunks) == stats.alloc.count && Reading(stats.free, Chunks) == stats.free.count;
      assert Reading(stats.alloc, Bytes) == stats.alloc.bytes && Reading(stats.free, Bytes) == stats.free.bytes;
    }
  }

  lemma {:induction false} PartitionCounts(events: seq<ChunkEvent>, members: Membership)
    ensures Sum(events, AllocWeight(members, Chunks)) + Sum(events, FreeWeight(members, Chunks)) == |events|
  {
    if events != [] {
      PartitionCounts(events[..|events| - 1], members);
    }
  }

  lemma {:induction false} PayloadOfRegion(
      mem: Mem, start: int, end: U64, events: seq<ChunkEvent>, members: Membership)
    requires Contiguous(mem, start, end, events)
    ensures Sum(events, AllocWeight(members, Bytes)) + Sum(events, FreeWeight(members, Bytes))
            + HEADER_SIZE * |events| == EndOf(start, events) - start
    decreases |events|
  {
    if events != [] {
      var e, rest := events[0], events[1..];
      PayloadOfRegion(mem, start + e.fullSize, end, rest, members);
      assert events == [e] + rest;
      SumConcat([e], rest, AllocWeight(members, Bytes));
      SumConcat([e], rest, FreeWeight(members, Bytes));
      assert [e][..0] == [];
      assert Area(e.userSize, 1) == e.userSize;
    }
  }

  // ----- When the documented sums hold -----

  /**
   * The documentation promises `allocated.count + free.count == overhead.count` of every report. It holds
   * exactly when the fastbins together claim no more chunks than are allocated (or free is clamped at 2^64 - 1).
   */
  lemma CountsAddUpExactly(arena: U32, events: seq<ChunkEvent>, members: Membership, fastbins: seq<FastbinResult>)
    requires |events| < TWO64
    ensures var stats := Account(arena, events, members, fastbins).0;
            (stats.alloc.count + stats.free.count == stats.overheadCount <==>
             Sum(fastbins, MovedWeight(Chunks)) <= Sum(events, AllocWeight(members, Chunks)) || |events| == MAX_U64)
  {
    var stats := Account(arena, events, members, fastbins).0;
    ClosedForm(arena, events, members, fastbins, Chunks);
    PartitionCounts(events, members);
    assert Reading(stats.alloc, Chunks) == stats.alloc.count && Reading(stats.free, Chunks) == stats.free.count;
  }

  /** One chunk in use, and a fastbin that claims more: nothing is allocated, all it claims is free, of one in all. */
  lemma CountsNeedNotAddUp(arena: U32, e: ChunkEvent, fb: FastbinResult)
    requires e.prevInuseSaysInUse && fb.count > 1
    ensures var (stats, problems) := Account(arena, [e], map[], [fb]);
            && problems == [StatsInconsistent(arena, fb.size)]
            && stats.alloc.count == 0 && stats.free.count == fb.count && stats.overheadCount == 1
  {
    var events, fastbins := [e], [fb];
    assert events[..0] == [] && fastbins[..0] == [];
    assert PostAll(events, map[]) == Post(EMPTY_BOOKS, e, map[]);
    var b := PostAll(events, map[]);
    assert MoveAll(b, fastbins, arena) == Move(MoveAll(b, [], arena), fb, arena);
    assert MoveAll(b, [], arena).problems == [];
  }

  /**
   * For any memory that walks silently: payload and header bytes make up the region exactly when the fastbins
   * claim no more bytes than are allocated.
   */
  lemma BytesAddUpExactly(
      mem: Mem, arena: U32, start: U64, end: U64, members: Membership, fastbins: seq<FastbinResult>)
    requires Walk(mem, arena, start, end, true).1 == []
    ensures |Walk(mem, arena, start, end, true).0| < TWO64
    ensures var events := Walk(mem, arena, start, end, true).0;
            var stats := Account(arena, events, members, fastbins).0;
            (stats.alloc.bytes + stats.free.bytes + stats.overheadBytes == end - start <==>
             Sum(fastbins, MovedWeight(Bytes)) <= Sum(events, AllocWeight(members, Bytes)))
  {
    var events := Walk(mem, arena, start, end, true).0;
    EventsTile(mem, arena, start, end, true);
    PayloadOfRegion(mem, start, end, events, members);
    var stats := Account(arena, events, members, fastbins).0;
    ClosedForm(arena, events, members, fastbins, Bytes);
    assert Reading(stats.alloc, Bytes) == stats.alloc.bytes && Reading(stats.free, Bytes) == stats.free.bytes;
  }

  // ----- Order does not matter -----

  /** The totals, and whether anything is reported, do not depend on the order of events or of bins. */
  lemma OrderDoesNotMatter(
      arena: U32, members: Membership, events: seq<ChunkEvent>, events': seq<ChunkEvent>,
      fastbins: seq<FastbinResult>, fastbins': seq<FastbinResult>, m: Measure)
    requires multiset(events) == multiset(events') && multiset(fastbins) == multiset(fastbins')
    requires |events| < TWO64
    ensures |events'| == |events|
    ensures var (stats, problems) := Account(arena, events, members, fastbins);
            var (stats', problems') := Account(arena, events', members, fastbins');
            && Reading(stats.alloc, m) == Reading(stats'.alloc, m)
            && Reading(stats.free, m) == Reading(stats'.free, m)
            && (problems == [] <==> problems' == [])
  {
    assert |multiset(events)| == |events| && |multiset(events')| == |events'|;
    ClosedForm(arena, events, members, fastbins, m);
    ClosedForm(arena, events', members, fastbins', m);
    SumPermutation(events, events', AllocWeight(members, m));
    SumPermutation(events, events', FreeWeight(members, m));
    SumPermutation(fastbins, fastbins', MovedWeight(m));
    InconsistencyExactly(arena, events, members, fastbins);
    InconsistencyExactly(arena, events', members, fastbins');
    forall size: U64
      ensures Sum(events, AllocWeight(members, OfSize(size))) == Sum(events', AllocWeight(members, OfSize(size)))
      ensures Sum(fastbins, MovedWeight(OfSize(size))) == Sum(fastbins', MovedWeight(OfSize(size)))
    {
      SumPermutation(events, events', AllocWeight(members, OfSize(size)));
      SumPermutation(fastbins, fastbins', MovedWeight(OfSize(size)));
    }
  }
}
