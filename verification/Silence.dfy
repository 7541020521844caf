/** When the analysis of a memory reports no problem: exactly when every part of the memory is sound. */
module Silence {
  import opened Words
  import opened Memory
  import opened FreeLists
  import opened Arenas
  import opened HeapList
  import opened ChunkWalk
  import opened Sums
  import opened Stats
  import opened Accounting
  import opened Tls
  import opened TcacheOwnership
  import opened Pipeline
  import opened AbstractHeap
  import opened ProcessTls
  import opened Findings

  // ----- What a sound memory is -----

  /** The bin has a readable head, and its chain reaches null. */
  ghost predicate TcacheBinEnds(mem: Mem, layout: Layout, tcache: U64, b: nat) {
    match mem.Read((tcache + layout.tcacheEntriesOffset + 8 * b) % TWO64)
    case None => false
    case Some(head) => ReachesNull(mem, layout, 0, head)
  }

  /** The thread has a thread pointer, its variables can be read, and its tcache, if any, is sound. */
  ghost predicate ThreadIsSound(mem: Mem, layout: Layout, libc: U64, thread: Thread) {
    && thread.tp != 0
    && (layout.threadArena.Some? ==>
          exists arena :: TlsWord(mem, layout, libc, thread.tp, layout.threadArena.value, arena))
    && (layout.hasTcache ==>
          exists tcache :: TlsWord(mem, layout, libc, thread.tp, layout.tcacheValue, tcache)
                           && TcacheEnds(mem, layout, tcache))
  }

  ghost predicate TcacheEnds(mem: Mem, layout: Layout, tcache: U64) {
    tcache != 0 ==> forall b: U32 :: b < layout.tcacheMaxBins ==> TcacheBinEnds(mem, layout, tcache, b)
  }

  /** No address is on two tcache chains. */
  ghost predicate NoneTwice(claims: seq<Claim>) {
    forall i, j :: 0 <= i < j < |claims| ==> claims[i].address != claims[j].address
  }

  /** The region is empty, or tiled by sound chunks within the cap, up to the bridge of a non-main heap. */
  ghost predicate RegionIsSound(mem: Mem, arena: Arena, h: Heap) {
    || h.regionStart == h.regionEnd
    || (h.regionStart < h.regionEnd
        && exists cuts :: Tiles(mem, h.regionStart, h.regionEnd, arena.index == 0, cuts)
                          && Steps(h.regionEnd, cuts) <= MAX_CHUNKS)
  }

  ghost predicate FastbinEnds(mem: Mem, layout: Layout, arena: Arena, f: nat) {
    match FastbinHeadWord(mem, layout, arena, f)
    case None => false
    case Some(head) => ReachesNull(mem, layout, 16, head)
  }

  /** For every size, the fastbins claim no more chunks than are in use and not cached. */
  ghost predicate ClaimsAreCovered(mem: Mem, layout: Layout, owners: Membership, arena: Arena, heaps: seq<Heap>) {
    forall size: U64 ::
      ClaimedSum(mem, layout, arena, layout.fastbinCount, OfSize(size))
      <= WalkedSum(mem, arena, heaps, AllocWeight(owners, OfSize(size)))
  }

  ghost predicate ArenaIsSound(mem: Mem, layout: Layout, libc: U64, owners: Membership, arena: Arena)
    requires mem.TopWordUnmapped() && layout.heapMaxSize > 0
  {
    match ListHeaps(mem, layout, libc, arena)
    case Err(_) => false
    case Ok((heaps, problems)) =>
      && problems == []
      && (forall h :: h in heaps ==> RegionIsSound(mem, arena, h))
      && (forall f: U32 :: f < layout.fastbinCount ==> FastbinEnds(mem, layout, arena, f))
      && ClaimsAreCovered(mem, layout, owners, arena, heaps)
  }

  /** The ring of arenas closes within the limit along `path`, and each arena on it is sound. */
  ghost predicate ArenasAreSound(mem: Mem, layout: Layout, libc: U64, owners: Membership, path: seq<U64>)
    requires mem.TopWordUnmapped() && layout.heapMaxSize > 0
  {
    && RingPath(mem, layout, (libc + layout.mainArenaValue) % TWO64, path)
    && |path| < MAX_ARENAS
    && forall i :: 0 <= i < |path| ==> ArenaIsSound(mem, layout, libc, owners, Arena(path[i], i))
  }

  ghost predicate ThreadsAreSound(mem: Mem, layout: Layout, libc: U64, threads: seq<Thread>) {
    layout.tpOffReloc.Some? ==>
      && (forall t :: t in threads ==> ThreadIsSound(mem, layout, libc, t))
      && NoneTwice(AllClaims(mem, layout, libc, threads))
  }

  // ----- Threads -----

  predicate OnlyDuplicates(problems: seq<Problem>) {
    forall p :: p in problems ==> p.DuplicateTcacheEntry?
  }

  lemma {:induction false} DuplicatesOnly(problems: seq<Problem>)
    ensures problems == [] <==> OnlyDuplicates(problems) && Duplicates(problems) == []
  {
    if problems != [] {
      var n := |problems| - 1;
      DuplicatesOnly(problems[..n]);
      assert problems == problems[..n] + [problems[n]];
      assert problems[n] in problems;
    }
  }

  lemma OnlyConcat(a: seq<Problem>, b: seq<Problem>)
    ensures OnlyDuplicates(a + b) <==> OnlyDuplicates(a) && OnlyDuplicates(b)
  {
    if OnlyDuplicates(a + b) {
      forall p | p in a || p in b
        ensures p.DuplicateTcacheEntry?
      {
        assert p in a + b;
      }
    }
  }

  lemma {:induction false} ClaimingAddsDuplicates(info: TlsInfo, addresses: seq<U64>, owner: Owner)
    ensures OnlyDuplicates(ClaimAll(info, addresses, owner).problems) <==> OnlyDuplicates(info.problems)
  {
    if addresses != [] {
      var before := ClaimAll(info, addresses[..|addresses| - 1], owner);
      ClaimingAddsDuplicates(info, addresses[..|addresses| - 1], owner);
      var p := DuplicateTcacheEntry(owner.thread, owner.bin, addresses[|addresses| - 1]);
      OnlyConcat(before.problems, [p]);
    }
  }

  lemma CollectedBin(mem: Mem, layout: Layout, tcache: U64, thread: I32, bin: U32, info: TlsInfo)
    ensures OnlyDuplicates(CollectBin(mem, layout, tcache, thread, bin, info).problems)
       <==> OnlyDuplicates(info.problems) && TcacheBinEnds(mem, layout, tcache, bin)
  {
    hide ClaimAll, ReachesNull, EntryAddress, ChainTrail;
    EntrySlot(layout, tcache, bin);
    match mem.Read(EntryAddress(layout, tcache, bin))
    case None =>
      var p := TcacheChunkReadFailed(thread, bin, EntryAddress(layout, tcache, bin));
      OnlyConcat(info.problems, [p]);
      assert p in [p];
    case Some(head) =>
      FreeListWalksDecide(mem, layout, head, 0, thread, bin);
      var (result, problems) := TcacheWalk(mem, layout, head, thread, bin);
      ClaimingAddsDuplicates(info.(problems := info.problems + problems), result.userAddrs, Owner(thread, bin));
      OnlyConcat(info.problems, problems);
      assert problems != [] ==> problems[0] in problems;
  }

  lemma {:induction false} CollectedBins(mem: Mem, layout: Layout, tcache: U64, thread: I32, bins: U32, info: TlsInfo)
    ensures OnlyDuplicates(CollectBins(mem, layout, tcache, thread, bins, info).problems)
       <==> OnlyDuplicates(info.problems) && forall b: U32 :: b < bins ==> TcacheBinEnds(mem, layout, tcache, b)
    decreases bins
  {
    hide CollectBin, TcacheBinEnds, OnlyDuplicates;
    if bins > 0 {
      CollectedBins(mem, layout, tcache, thread, bins - 1, info);
      CollectedBin(mem, layout, tcache, thread, bins - 1, CollectBins(mem, layout, tcache, thread, bins - 1, info));
    }
  }

  lemma TlsWordOnly(mem: Mem, layout: Layout, libc: U64, tp: U64, offset: U64)
    requires layout.tpOffReloc.Some?
    ensures ReadTlsVar(mem, layout, libc, tp, offset).Some? <==> exists v :: TlsWord(mem, layout, libc, tp, offset, v)
    ensures forall v: U64 :: TlsWord(mem, layout, libc, tp, offset, v) ==>
              ReadTlsVar(mem, layout, libc, tp, offset) == Some(v)
  {
    hide TlsWord, ReadTlsVar;
    forall v: U64
      ensures ReadTlsVar(mem, layout, libc, tp, offset) == Some(v) <==> TlsWord(mem, layout, libc, tp, offset, v)
    {
      ReadsTlsWord(mem, layout, libc, tp, offset, v);
    }
    if ReadTlsVar(mem, layout, libc, tp, offset).Some? {
      assert TlsWord(mem, layout, libc, tp, offset, ReadTlsVar(mem, layout, libc, tp, offset).value);
    }
  }

  lemma ResolvedThread(mem: Mem, layout: Layout, libc: U64, main: U64, t: Thread, info: TlsInfo)
    requires layout.tpOffReloc.Some?
    ensures OnlyDuplicates(ResolveThread(mem, layout, libc, main, t, info).problems)
       <==> OnlyDuplicates(info.problems) && ThreadIsSound(mem, layout, libc, t)
  {
    hide CollectBins, TlsWord, ReadTlsVar, TcacheBinEnds, OnlyDuplicates;
    var failed := [ThreadTlsResolutionFailed(t.threadId)];
    NotOnlyDuplicates(t.threadId);
    OnlyConcat(info.problems, failed);
    if t.tp != 0 {
      var bound := BindArena(mem, layout, libc, main, t, info).0;
      if layout.threadArena.Some? {
        TlsWordOnly(mem, layout, libc, t.tp, layout.threadArena.value);
      }
      TlsWordOnly(mem, layout, libc, t.tp, layout.tcacheValue);
      var collected := CollectThread(mem, layout, libc, t, bound).0;
      OnlyConcat(collected.problems, failed);
      if layout.hasTcache && ReadTlsVar(mem, layout, libc, t.tp, layout.tcacheValue).Some? {
        var tcache := ReadTlsVar(mem, layout, libc, t.tp, layout.tcacheValue).value;
        if tcache != 0 {
          CollectedBins(mem, layout, tcache, t.threadId, layout.tcacheMaxBins, bound);
        }
      }
    }
  }

  lemma NotOnlyDuplicates(id: I32)
    ensures !OnlyDuplicates([ThreadTlsResolutionFailed(id)])
  {
    assert ThreadTlsResolutionFailed(id) in [ThreadTlsResolutionFailed(id)];
  }

  lemma {:induction false} ResolvedThreads(
      mem: Mem, layout: Layout, libc: U64, main: U64, threads: seq<Thread>, info: TlsInfo)
    requires layout.tpOffReloc.Some?
    ensures OnlyDuplicates(ResolveAll(mem, layout, libc, main, threads, info).problems)
       <==> OnlyDuplicates(info.problems) && forall t :: t in threads ==> ThreadIsSound(mem, layout, libc, t)
  {
    hide ResolveThread, ThreadIsSound, OnlyDuplicates;
    if threads != [] {
      var n := |threads| - 1;
      ResolvedThreads(mem, layout, libc, main, threads[..n], info);
      ResolvedThread(mem, layout, libc, main, threads[n], ResolveAll(mem, layout, libc, main, threads[..n], info));
      assert threads == threads[..n] + [threads[n]];
    }
  }

  // ----- No duplicate exactly when no address is claimed twice -----

  function AddressesOf(claims: seq<Claim>, n: nat): set<U64>
    requires n <= |claims|
  {
    set i | 0 <= i < n :: claims[i].address
  }

  ghost predicate NoneTwiceBelow(claims: seq<Claim>, n: nat)
    requires n <= |claims|
  {
    forall i, j :: 0 <= i < j < n ==> claims[i].address != claims[j].address
  }

  lemma {:induction false} AddressesCount(claims: seq<Claim>, n: nat)
    requires n <= |claims|
    ensures |AddressesOf(claims, n)| <= n
    ensures |AddressesOf(claims, n)| == n <==> NoneTwiceBelow(claims, n)
    decreases n
  {
    if n > 0 {
      var last := claims[n - 1].address;
      AddressesCount(claims, n - 1);
      assert AddressesOf(claims, n) == AddressesOf(claims, n - 1) + {last};
      if last in AddressesOf(claims, n - 1) {
        var i :| 0 <= i < n - 1 && claims[i].address == last;
        assert !NoneTwiceBelow(claims, n);
      }
    }
  }

  lemma NoDuplicatesExactly(info: TlsInfo, claims: seq<Claim>)
    requires Reflects(info, claims)
    ensures Duplicates(info.problems) == [] <==> NoneTwice(claims)
  {
    AddressesCount(claims, |claims|);
    OwnersAreAddresses(info.members, claims);
  }

  lemma OwnersAreAddresses(owners: Membership, claims: seq<Claim>)
    requires FirstClaimWins(claims, owners)
    ensures |owners| == |AddressesOf(claims, |claims|)|
  {
    forall a | a in owners
      ensures a in AddressesOf(claims, |claims|)
    {
      var i :| 0 <= i < |claims| && IsFirstOn(claims, i, a, owners[a]);
      assert claims[i].address == a;
    }
    assert owners.Keys == AddressesOf(claims, |claims|);
  }

  /** TLS resolution is silent exactly when all threads are sound and no address is on two chains. */
  lemma TlsIsSilent(mem: Mem, layout: Layout, libc: U64, main: U64, threads: seq<Thread>)
    ensures Resolve(mem, layout, libc, main, threads).problems == [] <==> ThreadsAreSound(mem, layout, libc, threads)
  {
    hide ResolveAll, AllClaims, ThreadIsSound, Reflects;
    if layout.tpOffReloc.Some? {
      var info := Resolve(mem, layout, libc, main, threads);
      TcacheOwners(mem, layout, libc, main, threads);
      ResolvedThreads(mem, layout, libc, main, threads, TlsInfo(map[], map[], []));
      DuplicatesOnly(info.problems);
      NoDuplicatesExactly(info, AllClaims(mem, layout, libc, threads));
    }
  }

  // ----- Arenas -----

  lemma {:induction false} ChunksAreSilent(mem: Mem, arena: Arena, heaps: seq<Heap>)
    ensures ChunksOf(mem, arena, heaps).1 == [] <==> forall h :: h in heaps ==> RegionIsSound(mem, arena, h)
  {
    hide Walk, RegionIsSound;
    if heaps != [] {
      var n := |heaps| - 1;
      ChunksAreSilent(mem, arena, heaps[..n]);
      RegionIsSilent(mem, arena, heaps[n]);
      assert heaps == heaps[..n] + [heaps[n]];
    }
  }

  lemma RegionIsSilent(mem: Mem, arena: Arena, h: Heap)
    ensures Walk(mem, arena.index, h.regionStart, h.regionEnd, arena.IsMain()).1 == [] <==> RegionIsSound(mem, arena, h)
  {
    hide Walk;
    WalkDecides(mem, arena.index, h.regionStart, h.regionEnd, arena.IsMain());
  }

  lemma FastbinIsSilent(mem: Mem, layout: Layout, arena: Arena, f: U32)
    ensures FastbinEnds(mem, layout, arena, f)
       <==> && mem.Read(FastbinSlot(layout, arena, f)).Some?
            && FastbinWalk(mem, layout, mem.Read(FastbinSlot(layout, arena, f)).value, arena.index, f).1 == []
  {
    hide FastbinSlot, FastbinHeadWord, FastbinWalk, ReachesNull;
    HeadIsSlot(mem, layout, arena, f);
    if FastbinHeadWord(mem, layout, arena, f).Some? {
      FreeListWalksDecide(mem, layout, FastbinHeadWord(mem, layout, arena, f).value, arena.index, 0, f);
    }
  }

  lemma {:induction false} FastbinsAreSilent(mem: Mem, layout: Layout, arena: Arena, bins: U32)
    ensures Fastbins(mem, layout, arena, bins).1 == []
       <==> forall f: U32 :: f < bins ==> FastbinEnds(mem, layout, arena, f)
    decreases bins
  {
    hide FastbinSlot, FastbinWalk, FastbinEnds;
    if bins > 0 {
      FastbinsAreSilent(mem, layout, arena, bins - 1);
      FastbinIsSilent(mem, layout, arena, bins - 1);
    }
  }

  lemma AccountIsSilent(mem: Mem, layout: Layout, owners: Membership, arena: Arena, heaps: seq<Heap>)
    requires |ChunksOf(mem, arena, heaps).0| < TWO64
    ensures Account(arena.index, ChunksOf(mem, arena, heaps).0, owners,
                    Fastbins(mem, layout, arena, layout.fastbinCount).0).1 == []
       <==> ClaimsAreCovered(mem, layout, owners, arena, heaps)
  {
    hide Account, ChunksOf, Fastbins, Sum, WalkedSum, ClaimedSum;
    var events, fastbins := ChunksOf(mem, arena, heaps).0, Fastbins(mem, layout, arena, layout.fastbinCount).0;
    InconsistencyExactly(arena.index, events, owners, fastbins);
    forall size: U64
      ensures Sum(fastbins, MovedWeight(OfSize(size)))
           == ClaimedSum(mem, layout, arena, layout.fastbinCount, OfSize(size))
      ensures Sum(events, AllocWeight(owners, OfSize(size)))
           == WalkedSum(mem, arena, heaps, AllocWeight(owners, OfSize(size)))
    {
      FastbinsSum(mem, layout, arena, layout.fastbinCount, OfSize(size));
      ChunksSum(mem, arena, heaps, AllocWeight(owners, OfSize(size)));
    }
  }

  lemma ArenaIsSilent(mem: Mem, layout: Layout, libc: U64, threads: seq<Thread>, tls: TlsInfo, arena: Arena)
    requires mem.TopWordUnmapped() && layout.heapMaxSize > 0
    ensures var outcome := AnalyzeArena(mem, layout, libc, threads, tls, arena);
            outcome.Ok? && outcome.value.1 == [] <==> ArenaIsSound(mem, layout, libc, tls.members, arena)
  {
    hide ListHeaps, ChunksOf, Fastbins, Account, Attached, RegionIsSound, FastbinEnds, ClaimsAreCovered;
    if ListHeaps(mem, layout, libc, arena).Ok? {
      var (heaps, problems) := ListHeaps(mem, layout, libc, arena).value;
      HeapsBounded(mem, layout, libc, arena);
      ChunksBounded(mem, arena, heaps);
      ChunksAreSilent(mem, arena, heaps);
      FastbinsAreSilent(mem, layout, arena, layout.fastbinCount);
      AccountIsSilent(mem, layout, tls.members, arena, heaps);
    }
  }

  lemma {:induction false} ArenasAreSilent(
      mem: Mem, layout: Layout, libc: U64, threads: seq<Thread>, tls: TlsInfo, arenas: seq<Arena>)
    requires mem.TopWordUnmapped() && layout.heapMaxSize > 0
    ensures var outcome := AnalyzeArenas(mem, layout, libc, threads, tls, arenas);
            outcome.Ok? && outcome.value.problems == [] <==>
            forall i :: 0 <= i < |arenas| ==> ArenaIsSound(mem, layout, libc, tls.members, arenas[i])
  {
    hide AnalyzeArena, ArenaIsSound;
    if arenas != [] {
      var n := |arenas| - 1;
      ArenasAreSilent(mem, layout, libc, threads, tls, arenas[..n]);
      ArenaIsSilent(mem, layout, libc, threads, tls, arenas[n]);
      if forall i :: 0 <= i < n ==> ArenaIsSound(mem, layout, libc, tls.members, arenas[..n][i]) {
        assert forall i :: 0 <= i < n ==> arenas[i] == arenas[..n][i];
      }
      if forall i :: 0 <= i < |arenas| ==> ArenaIsSound(mem, layout, libc, tls.members, arenas[i]) {
        assert forall i :: 0 <= i < n ==> arenas[..n][i] == arenas[i];
      }
    }
  }

  // ----- The whole analysis -----

  lemma ListedIsPath(mem: Mem, layout: Layout, libc: U64, path: seq<U64>)
    requires RingPath(mem, layout, MainAddress(layout, libc), path) && |path| < MAX_ARENAS
    ensures ListArenas(mem, layout, libc).Ok? ==> ListArenas(mem, layout, libc) == Ok((ArenasAt(path), []))
    ensures ListArenas(mem, layout, libc).Ok? <==>
            mem.Read((MainAddress(layout, libc) + layout.topOffset) % TWO64).Some?
  {
    hide RingPath;
    ArenaRing(mem, layout, libc);
    if mem.Read((MainAddress(layout, libc) + layout.topOffset) % TWO64).Some? {
      RingPathIsListed(mem, layout, libc, path);
    }
  }

  /** The main arena's heaps can be listed only if its `top` can be read. */
  lemma MainNeedsTop(mem: Mem, layout: Layout, libc: U64, owners: Membership, main: U64)
    requires mem.TopWordUnmapped() && layout.heapMaxSize > 0
    requires ArenaIsSound(mem, layout, libc, owners, Arena(main, 0))
    ensures mem.Read((main + layout.topOffset) % TWO64).Some?
  {
  }

  /**
   * The analysis of a memory succeeds and reports no problem exactly when: all threads' TLS and tcaches are sound and
   * no address is on two tcache chains; the ring of arenas closes within the limit; and of each arena the heaps are
   * listed silently, the regions tiled, the fastbins end, and the fastbins claim no more than is allocated.
   */
  lemma SilentExactly(mem: Mem, layout: Layout, libc: U64, threads: seq<Thread>, owners: Membership)
    requires mem.TopWordUnmapped() && layout.heapMaxSize > 0
    requires OwnersAre(mem, layout, libc, threads, owners)
    ensures var outcome := Analyze(mem, layout, libc, threads);
            (outcome.Ok? && outcome.value.problems == []) <==>
            && ThreadsAreSound(mem, layout, libc, threads)
            && exists path :: ArenasAreSound(mem, layout, libc, owners, path)
  {
    hide Resolve, AllClaims, FirstClaimWins, ThreadsAreSound, AnalyzeArenas, ArenaIsSound, RingPath;
    var main := MainAddress(layout, libc);
    var tls := Resolve(mem, layout, libc, main, threads);
    ResolvedOwners(mem, layout, libc, main, threads);
    if layout.tpOffReloc.Some? {
      OwnersUnique(AllClaims(mem, layout, libc, threads), owners, tls.members);
    }
    assert tls.members == owners;
    TlsIsSilent(mem, layout, libc, main, threads);
    ArenaRing(mem, layout, libc);
    forall path | RingPath(mem, layout, main, path) && |path| < MAX_ARENAS
      ensures ListArenas(mem, layout, libc).Ok? ==>
                && ListArenas(mem, layout, libc) == Ok((ArenasAt(path), []))
                && (var outcome := AnalyzeArenas(mem, layout, libc, threads, tls, ArenasAt(path));
                    (outcome.Ok? && outcome.value.problems == []) <==> ArenasAreSound(mem, layout, libc, owners, path))
      ensures ArenasAreSound(mem, layout, libc, owners, path) ==> ListArenas(mem, layout, libc).Ok?
    {
      ListedIsPath(mem, layout, libc, path);
      PathIsSilent(mem, layout, libc, threads, tls, path);
    }
  }

  lemma RingPathStarts(mem: Mem, layout: Layout, main: U64, path: seq<U64>)
    requires RingPath(mem, layout, main, path)
    ensures |path| > 0 && path[0] == main
  {
  }

  lemma PathIsSilent(mem: Mem, layout: Layout, libc: U64, threads: seq<Thread>, tls: TlsInfo, path: seq<U64>)
    requires mem.TopWordUnmapped() && layout.heapMaxSize > 0
    requires RingPath(mem, layout, MainAddress(layout, libc), path) && |path| < MAX_ARENAS
    ensures var outcome := AnalyzeArenas(mem, layout, libc, threads, tls, ArenasAt(path));
            (outcome.Ok? && outcome.value.problems == []) <==> ArenasAreSound(mem, layout, libc, tls.members, path)
    ensures ArenasAreSound(mem, layout, libc, tls.members, path) ==>
              mem.Read((MainAddress(layout, libc) + layout.topOffset) % TWO64).Some?
  {
    hide ArenaIsSound, AnalyzeArenas, RingPath;
    RingPathStarts(mem, layout, MainAddress(layout, libc), path);
    var arenas := ArenasAt(path);
    ArenasAreSilent(mem, layout, libc, threads, tls, arenas);
    forall i | 0 <= i < |path|
      ensures arenas[i] == Arena(path[i], i)
    {
    }
    if ArenasAreSound(mem, layout, libc, tls.members, path) {
      assert ArenaIsSound(mem, layout, libc, tls.members, Arena(path[0], 0));
      MainNeedsTop(mem, layout, libc, tls.members, path[0]);
    }
  }
}
