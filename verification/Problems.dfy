/** Which problems the analysis of a memory reports: exactly those that are there, from every stage. */
module Problems {
  import opened Words
  import opened Memory
  import opened FreeLists
  import opened Arenas
  import opened HeapList
  import opened ChunkWalk
  import opened Stats
  import opened Accounting
  import opened Tls
  import opened TcacheOwnership
  import opened Pipeline
  import opened AbstractHeap
  import opened ProcessTls
  import opened Findings
  import opened Silence

  // ----- What is wrong with a thread -----

  /** `p` is what is wrong with a chain: it runs into an unreadable slot, or it repeats or exceeds the cap. */
  ghost predicate TcacheChainProblem(mem: Mem, layout: Layout, thread: I32, b: U32, head: U64, p: Problem) {
    || (exists at :: head != 0 && RunsInto(mem, layout, 0, head, at) && p == TcacheChunkReadFailed(thread, b, at))
    || (!ReachesNull(mem, layout, 0, head) && !(exists at :: head != 0 && RunsInto(mem, layout, 0, head, at))
        && p == TcacheCycleDetected(thread, b))
  }

  /** `p` is what is wrong with a tcache bin: its head cannot be read, or its chain is broken. */
  ghost predicate TcacheBinProblem(mem: Mem, layout: Layout, tcache: U64, thread: I32, b: U32, p: Problem) {
    var slot := (tcache + layout.tcacheEntriesOffset + 8 * b) % TWO64;
    match mem.Read(slot)
    case None => p == TcacheChunkReadFailed(thread, b, slot)
    case Some(head) => TcacheChainProblem(mem, layout, thread, b, head, p)
  }

  ghost predicate SomeBinProblem(mem: Mem, layout: Layout, tcache: U64, thread: I32, bins: nat, p: Problem) {
    exists b: U32 :: b < bins && TcacheBinProblem(mem, layout, tcache, thread, b, p)
  }

  /** The variable cannot be read. */
  ghost predicate TlsUnreadable(mem: Mem, layout: Layout, libc: U64, tp: U64, offset: U64) {
    !exists v :: TlsWord(mem, layout, libc, tp, offset, v)
  }

  /** `p` is what is wrong with a thread: its TLS cannot be resolved, or one of its bins is broken. */
  ghost predicate ThreadProblem(mem: Mem, layout: Layout, libc: U64, t: Thread, p: Problem) {
    || (p == ThreadTlsResolutionFailed(t.threadId)
        && (|| t.tp == 0
            || (layout.threadArena.Some? && TlsUnreadable(mem, layout, libc, t.tp, layout.threadArena.value))
            || (layout.hasTcache && TlsUnreadable(mem, layout, libc, t.tp, layout.tcacheValue))))
    || (t.tp != 0 && layout.hasTcache
        && exists tcache ::
             && TlsWord(mem, layout, libc, t.tp, layout.tcacheValue, tcache) && tcache != 0
             && SomeBinProblem(mem, layout, tcache, t.threadId, layout.tcacheMaxBins, p))
  }

  lemma {:induction false} ClaimingReports(info: TlsInfo, addresses: seq<U64>, owner: Owner, p: Problem)
    requires !p.DuplicateTcacheEntry?
    ensures p in ClaimAll(info, addresses, owner).problems <==> p in info.problems
  {
    if addresses != [] {
      ClaimingReports(info, addresses[..|addresses| - 1], owner, p);
    }
  }

  lemma BinReports(mem: Mem, layout: Layout, tcache: U64, thread: I32, b: U32, info: TlsInfo, p: Problem)
    requires !p.DuplicateTcacheEntry?
    ensures p in CollectBin(mem, layout, tcache, thread, b, info).problems
       <==> p in info.problems || TcacheBinProblem(mem, layout, tcache, thread, b, p)
  {
    hide ClaimAll, ReachesNull, RunsInto, EntryAddress, ChainTrail;
    EntrySlot(layout, tcache, b);
    match mem.Read(EntryAddress(layout, tcache, b))
    case None =>
    case Some(head) =>
      FreeListWalksDecide(mem, layout, head, 0, thread, b);
      var (result, problems) := TcacheWalk(mem, layout, head, thread, b);
      ClaimingReports(info.(problems := info.problems + problems), result.userAddrs, Owner(thread, b), p);
      ChainReports(mem, layout, head, thread, b, p);
  }

  lemma ChainReports(mem: Mem, layout: Layout, head: U64, thread: I32, b: U32, p: Problem)
    ensures p in TcacheWalk(mem, layout, head, thread, b).1 <==> TcacheChainProblem(mem, layout, thread, b, head, p)
  {
    hide ReachesNull, RunsInto, TcacheWalk;
    FreeListWalksDecide(mem, layout, head, 0, thread, b);
    var problems := TcacheWalk(mem, layout, head, thread, b).1;
    if problems == [TcacheCycleDetected(thread, b)] {
      forall at
        ensures !(head != 0 && RunsInto(mem, layout, 0, head, at))
      {
        assert problems != [TcacheChunkReadFailed(thread, b, at)];
      }
    }
  }

  lemma {:induction false} BinsReport(
      mem: Mem, layout: Layout, tcache: U64, thread: I32, bins: U32, info: TlsInfo, p: Problem)
    requires !p.DuplicateTcacheEntry?
    ensures p in CollectBins(mem, layout, tcache, thread, bins, info).problems
       <==> p in info.problems || SomeBinProblem(mem, layout, tcache, thread, bins, p)
    decreases bins
  {
    hide CollectBin, TcacheBinProblem;
    if bins > 0 {
      BinsReport(mem, layout, tcache, thread, bins - 1, info, p);
      BinReports(mem, layout, tcache, thread, bins - 1,
                 CollectBins(mem, layout, tcache, thread, bins - 1, info), p);
      if TcacheBinProblem(mem, layout, tcache, thread, bins - 1, p) {
        assert SomeBinProblem(mem, layout, tcache, thread, bins, p);
      }
      if SomeBinProblem(mem, layout, tcache, thread, bins - 1, p) {
        var b: U32 :| b < bins - 1 && TcacheBinProblem(mem, layout, tcache, thread, b, p);
        assert SomeBinProblem(mem, layout, tcache, thread, bins, p);
      }
    }
  }

  lemma ThreadReports(mem: Mem, layout: Layout, libc: U64, main: U64, t: Thread, info: TlsInfo, p: Problem)
    requires layout.tpOffReloc.Some? && !p.DuplicateTcacheEntry?
    ensures p in ResolveThread(mem, layout, libc, main, t, info).problems
       <==> p in info.problems || ThreadProblem(mem, layout, libc, t, p)
  {
    hide CollectBins, TlsWord, ReadTlsVar, SomeBinProblem;
    if t.tp != 0 {
      var bound := BindArena(mem, layout, libc, main, t, info).0;
      if layout.threadArena.Some? {
        TlsWordOnly(mem, layout, libc, t.tp, layout.threadArena.value);
      }
      TlsWordOnly(mem, layout, libc, t.tp, layout.tcacheValue);
      if layout.hasTcache && ReadTlsVar(mem, layout, libc, t.tp, layout.tcacheValue).Some? {
        var tcache := ReadTlsVar(mem, layout, libc, t.tp, layout.tcacheValue).value;
        assert TlsWord(mem, layout, libc, t.tp, layout.tcacheValue, tcache);
        if tcache != 0 {
          BinsReport(mem, layout, tcache, t.threadId, layout.tcacheMaxBins, bound, p);
        }
      }
    }
  }

  lemma {:induction false} ThreadsReport(
      mem: Mem, layout: Layout, libc: U64, main: U64, threads: seq<Thread>, info: TlsInfo, p: Problem)
    requires layout.tpOffReloc.Some? && !p.DuplicateTcacheEntry?
    ensures p in ResolveAll(mem, layout, libc, main, threads, info).problems
       <==> p in info.problems || exists t :: t in threads && ThreadProblem(mem, layout, libc, t, p)
  {
    hide ResolveThread, ThreadProblem;
    if threads != [] {
      var n := |threads| - 1;
      ThreadsReport(mem, layout, libc, main, threads[..n], info, p);
      ThreadReports(mem, layout, libc, main, threads[n], ResolveAll(mem, layout, libc, main, threads[..n], info), p);
      assert threads == threads[..n] + [threads[n]];
    }
  }

  /**
   * What resolving the threads reports: each thread's own problems, and, of the addresses on the tcache chains, one
   * duplicate for each claim on one that is owned already.
   */
  lemma TlsReportsExactly(mem: Mem, layout: Layout, libc: U64, main: U64, threads: seq<Thread>, p: Problem)
    ensures p in Resolve(mem, layout, libc, main, threads).problems <==> TlsProblem(mem, layout, libc, threads, p)
  {
    hide ResolveAll, ThreadProblem, AllClaims;
    if layout.tpOffReloc.Some? {
      var info := Resolve(mem, layout, libc, main, threads);
      if p.DuplicateTcacheEntry? {
        TcacheOwners(mem, layout, libc, main, threads);
        DuplicateIn(info.problems, p);
        RepeatsAreReported(mem, layout, libc, main, threads, p);
      } else {
        ThreadsReport(mem, layout, libc, main, threads, TlsInfo(map[], map[], []), p);
      }
    }
  }

  ghost predicate TlsProblem(mem: Mem, layout: Layout, libc: U64, threads: seq<Thread>, p: Problem) {
    && layout.tpOffReloc.Some?
    && if p.DuplicateTcacheEntry? then ReportedRepeat(AllClaims(mem, layout, libc, threads), p)
       else exists t :: t in threads && ThreadProblem(mem, layout, libc, t, p)
  }

  lemma {:induction false} DuplicateIn(problems: seq<Problem>, p: Problem)
    requires p.DuplicateTcacheEntry?
    ensures p in problems <==> p in Duplicates(problems)
  {
    if problems != [] {
      DuplicateIn(problems[..|problems| - 1], p);
      assert problems == problems[..|problems| - 1] + [problems[|problems| - 1]];
    }
  }

  /** Every repeated claim is reported: claims are made one by one, and each but the first on an address reports. */
  lemma RepeatsAreReported(mem: Mem, layout: Layout, libc: U64, main: U64, threads: seq<Thread>, p: Problem)
    requires layout.tpOffReloc.Some? && p.DuplicateTcacheEntry?
    ensures ReportedRepeat(AllClaims(mem, layout, libc, threads), p) ==>
              p in Resolve(mem, layout, libc, main, threads).problems
  {
    hide ResolveAll, AllClaims;
    AllRepeatsReported(mem, layout, libc, main, threads, TlsInfo(map[], map[], []), p);
  }

  /** The repeats among the claims are reported. */
  ghost predicate ReportsRepeat(info: TlsInfo, claims: seq<Claim>, p: Problem) {
    && (forall i :: 0 <= i < |claims| ==> claims[i].address in info.members)
    && (ReportedRepeat(claims, p) ==> p in info.problems)
  }

  lemma ClaimRepeats(info: TlsInfo, claims: seq<Claim>, claim: Claim, p: Problem)
    requires Reflects(info, claims) && ReportsRepeat(info, claims, p)
    ensures ReportsRepeat(ClaimOne(info, claim), claims + [claim], p)
  {
    var all := claims + [claim];
    if ReportedRepeat(all, p) {
      var i :| 0 <= i < |all| && IsRepeat(all, i) && ReportsClaim(p, all[i]);
      var j :| 0 <= j < i && all[j].address == all[i].address;
      if i < |claims| {
        assert claims[j].address == claims[i].address && IsRepeat(claims, i) && ReportsClaim(p, claims[i]);
        assert ReportedRepeat(claims, p);
      } else {
        assert claims[j].address == claim.address;
      }
    }
  }

  lemma {:induction false} ClaimsRepeat(
      info: TlsInfo, claims: seq<Claim>, addresses: seq<U64>, owner: Owner, p: Problem)
    requires Reflects(info, claims) && ReportsRepeat(info, claims, p)
    ensures Reflects(ClaimAll(info, addresses, owner), claims + ClaimsOn(addresses, owner))
    ensures ReportsRepeat(ClaimAll(info, addresses, owner), claims + ClaimsOn(addresses, owner), p)
  {
    hide Reflects, ClaimOne, ReportsRepeat;
    ClaimAllReflects(info, claims, addresses, owner);
    if addresses == [] {
      assert claims + ClaimsOn(addresses, owner) == claims;
    } else {
      var n := |addresses| - 1;
      ClaimsRepeat(info, claims, addresses[..n], owner, p);
      ClaimRepeats(ClaimAll(info, addresses[..n], owner), claims + ClaimsOn(addresses[..n], owner),
                   Claim(addresses[n], owner), p);
      assert claims + ClaimsOn(addresses, owner)
          == claims + ClaimsOn(addresses[..n], owner) + [Claim(addresses[n], owner)];
    }
  }

  lemma OthersKeepRepeats(info: TlsInfo, more: seq<Problem>, claims: seq<Claim>, p: Problem)
    requires ReportsRepeat(info, claims, p)
    ensures ReportsRepeat(info.(problems := info.problems + more), claims, p)
  {
  }

  lemma BinRepeats(
      mem: Mem, layout: Layout, tcache: U64, thread: I32, b: U32, info: TlsInfo, claims: seq<Claim>, p: Problem)
    requires Reflects(info, claims) && ReportsRepeat(info, claims, p)
    ensures var log := claims + ClaimsOn(BinChain(mem, layout, tcache, b), Owner(thread, b));
            && Reflects(CollectBin(mem, layout, tcache, thread, b, info), log)
            && ReportsRepeat(CollectBin(mem, layout, tcache, thread, b, info), log, p)
  {
    hide Reflects, ReportsRepeat, EntryAddress, ChainTrail, ClaimAll;
    CollectBinReflects(mem, layout, tcache, thread, b, info, claims);
    match mem.Read(EntryAddress(layout, tcache, b))
    case None =>
      assert claims + ClaimsOn([], Owner(thread, b)) == claims;
      OthersKeepRepeats(info, [TcacheChunkReadFailed(thread, b, EntryAddress(layout, tcache, b))], claims, p);
    case Some(head) =>
      var (result, problems) := TcacheWalk(mem, layout, head, thread, b);
      NoDuplicatesInWalk(mem, layout, head, thread, b);
      OtherProblemsKeepReflects(info, problems, claims);
      OthersKeepRepeats(info, problems, claims, p);
      ClaimsRepeat(info.(problems := info.problems + problems), claims, result.userAddrs, Owner(thread, b), p);
  }

  lemma NoDuplicatesInWalk(mem: Mem, layout: Layout, head: U64, thread: I32, b: U32)
    ensures forall p :: p in TcacheWalk(mem, layout, head, thread, b).1 ==> !p.DuplicateTcacheEntry?
  {
    hide ChainTrail;
  }

  lemma {:induction false} BinsRepeat(
      mem: Mem, layout: Layout, tcache: U64, thread: I32, bins: U32, info: TlsInfo, claims: seq<Claim>, p: Problem)
    requires Reflects(info, claims) && ReportsRepeat(info, claims, p)
    ensures var log := claims + BinClaims(mem, layout, tcache, thread, bins);
            && Reflects(CollectBins(mem, layout, tcache, thread, bins, info), log)
            && ReportsRepeat(CollectBins(mem, layout, tcache, thread, bins, info), log, p)
    decreases bins
  {
    hide Reflects, ReportsRepeat, CollectBin, BinChain;
    if bins == 0 {
      assert claims + BinClaims(mem, layout, tcache, thread, bins) == claims;
    } else {
      BinsRepeat(mem, layout, tcache, thread, bins - 1, info, claims, p);
      var log := claims + BinClaims(mem, layout, tcache, thread, bins - 1);
      BinRepeats(mem, layout, tcache, thread, bins - 1, CollectBins(mem, layout, tcache, thread, bins - 1, info), log, p);
      assert claims + BinClaims(mem, layout, tcache, thread, bins)
          == log + ClaimsOn(BinChain(mem, layout, tcache, bins - 1), Owner(thread, bins - 1));
    }
  }

  lemma ThreadRepeats(
      mem: Mem, layout: Layout, libc: U64, main: U64, t: Thread, info: TlsInfo, claims: seq<Claim>, p: Problem)
    requires Reflects(info, claims) && ReportsRepeat(info, claims, p)
    ensures var log := claims + ThreadClaims(mem, layout, libc, t);
            && Reflects(ResolveThread(mem, layout, libc, main, t, info), log)
            && ReportsRepeat(ResolveThread(mem, layout, libc, main, t, info), log, p)
  {
    hide Reflects, CollectBins, BinClaims, ReadTlsVar, ReportedRepeat;
    var failed := [ThreadTlsResolutionFailed(t.threadId)];
    var log := claims + ThreadClaims(mem, layout, libc, t);
    assert ThreadClaims(mem, layout, libc, t) == [] ==> log == claims;
    if t.tp == 0 {
      OtherProblemsKeepReflects(info, failed, claims);
    } else {
      var bound := BindArena(mem, layout, libc, main, t, info).0;
      BoundReflects(info, bound, claims);
      var base := BaseOf(mem, layout, libc, t);
      if base != 0 {
        BinsRepeat(mem, layout, base, t.threadId, layout.tcacheMaxBins, bound, claims, p);
      }
      var collected := CollectThread(mem, layout, libc, t, bound).0;
      assert Reflects(collected, log) && ReportsRepeat(collected, log, p);
      OtherProblemsKeepReflects(collected, failed, log);
    }
  }

  lemma BoundReflects(info: TlsInfo, bound: TlsInfo, claims: seq<Claim>)
    requires bound.members == info.members && bound.problems == info.problems
    ensures Reflects(info, claims) <==> Reflects(bound, claims)
  {
  }

  lemma {:induction false} AllRepeatsReported(
      mem: Mem, layout: Layout, libc: U64, main: U64, threads: seq<Thread>, info: TlsInfo, p: Problem)
    requires info == TlsInfo(map[], map[], [])
    ensures Reflects(ResolveAll(mem, layout, libc, main, threads, info), AllClaims(mem, layout, libc, threads))
    ensures ReportsRepeat(ResolveAll(mem, layout, libc, main, threads, info), AllClaims(mem, layout, libc, threads), p)
  {
    hide ResolveThread, ThreadClaims;
    if threads != [] {
      hide Reflects, ReportsRepeat;
      var n := |threads| - 1;
      AllRepeatsReported(mem, layout, libc, main, threads[..n], info, p);
      ThreadRepeats(mem, layout, libc, main, threads[n], ResolveAll(mem, layout, libc, main, threads[..n], info),
                    AllClaims(mem, layout, libc, threads[..n]), p);
    }
  }

  // ----- What is wrong with an arena -----

  /** `p` is what is wrong with a fastbin: its head cannot be read, or its chain is broken. */
  ghost predicate FastbinProblem(mem: Mem, layout: Layout, arena: Arena, f: U32, p: Problem) {
    match FastbinHeadWord(mem, layout, arena, f)
    case None =>
      p == FastbinChunkReadFailed(arena.index, f, (arena.mallocStateAddr + layout.fastbinArrayOffset + 8 * f) % TWO64)
    case Some(head) =>
      || (exists at :: head != 0 && RunsInto(mem, layout, 16, head, at) && p == FastbinChunkReadFailed(arena.index, f, at))
      || (!ReachesNull(mem, layout, 16, head) && !(exists at :: head != 0 && RunsInto(mem, layout, 16, head, at))
          && p == FastbinCycleDetected(arena.index, f))
  }

  ghost predicate SomeFastbinProblem(mem: Mem, layout: Layout, arena: Arena, bins: nat, p: Problem) {
    exists f: U32 :: f < bins && FastbinProblem(mem, layout, arena, f, p)
  }

  /** `p` is what is wrong with the chunks of one of the heaps. */
  ghost predicate RegionProblem(mem: Mem, arena: Arena, heaps: seq<Heap>, p: Problem) {
    exists h :: h in heaps && p in Walk(mem, arena.index, h.regionStart, h.regionEnd, arena.index == 0).1
  }

  /** `p` is what is wrong with an arena: its heaps, their chunks, its fastbins, or more claimed than allocated. */
  ghost predicate ArenaProblem(
      mem: Mem, layout: Layout, libc: U64, owners: Membership, arena: Arena, p: Problem)
    requires mem.TopWordUnmapped() && layout.heapMaxSize > 0
  {
    match ListHeaps(mem, layout, libc, arena)
    case Err(_) => p == HeapWalkTruncated(arena.index, HeapListStartUnreadable)
    case Ok((heaps, problems)) =>
      || p in problems
      || RegionProblem(mem, arena, heaps, p)
      || SomeFastbinProblem(mem, layout, arena, layout.fastbinCount, p)
      || OverdrawnProblem(mem, layout, owners, arena, heaps, p)
  }

  /** `p` is about a size that the fastbins overdraw, among what is in use and not cached. */
  ghost predicate OverdrawnProblem(
      mem: Mem, layout: Layout, owners: Membership, arena: Arena, heaps: seq<Heap>, p: Problem)
  {
    p in Overdrawn(arena.index, ChunksOf(mem, arena, heaps).0, owners, Fastbins(mem, layout, arena, layout.fastbinCount).0)
  }

  lemma {:induction false} RegionsReport(mem: Mem, arena: Arena, heaps: seq<Heap>, p: Problem)
    ensures p in ChunksOf(mem, arena, heaps).1 <==> RegionProblem(mem, arena, heaps, p)
  {
    hide Walk;
    if heaps != [] {
      var n := |heaps| - 1;
      RegionsReport(mem, arena, heaps[..n], p);
      assert heaps == heaps[..n] + [heaps[n]];
      if RegionProblem(mem, arena, heaps[..n], p) {
        var h :| h in heaps[..n] && p in Walk(mem, arena.index, h.regionStart, h.regionEnd, arena.index == 0).1;
        assert h in heaps;
      }
      if p in Walk(mem, arena.index, heaps[n].regionStart, heaps[n].regionEnd, arena.index == 0).1 {
        assert heaps[n] in heaps;
      }
    }
  }

  lemma FastbinReports(mem: Mem, layout: Layout, arena: Arena, f: U32, p: Problem)
    ensures var slot := FastbinSlot(layout, arena, f);
            FastbinProblem(mem, layout, arena, f, p) <==>
            match mem.Read(slot)
            case None => p == FastbinChunkReadFailed(arena.index, f, slot)
            case Some(head) => p in FastbinWalk(mem, layout, head, arena.index, f).1
  {
    hide ReachesNull, RunsInto, FastbinWalk;
    HeadIsSlot(mem, layout, arena, f);
    if FastbinHeadWord(mem, layout, arena, f).Some? {
      var head := FastbinHeadWord(mem, layout, arena, f).value;
      FreeListWalksDecide(mem, layout, head, arena.index, 0, f);
      var problems := FastbinWalk(mem, layout, head, arena.index, f).1;
      if problems == [FastbinCycleDetected(arena.index, f)] {
        forall at
          ensures !(head != 0 && RunsInto(mem, layout, 16, head, at))
        {
          assert problems != [FastbinChunkReadFailed(arena.index, f, at)];
        }
      }
    }
  }

  lemma {:induction false} FastbinsReport(mem: Mem, layout: Layout, arena: Arena, bins: U32, p: Problem)
    ensures p in Fastbins(mem, layout, arena, bins).1 <==> SomeFastbinProblem(mem, layout, arena, bins, p)
    decreases bins
  {
    hide FastbinSlot, FastbinWalk, FastbinProblem;
    if bins > 0 {
      FastbinsReport(mem, layout, arena, bins - 1, p);
      FastbinReports(mem, layout, arena, bins - 1, p);
      if FastbinProblem(mem, layout, arena, bins - 1, p) {
        assert SomeFastbinProblem(mem, layout, arena, bins, p);
      }
      if SomeFastbinProblem(mem, layout, arena, bins - 1, p) {
        var f: U32 :| f < bins - 1 && FastbinProblem(mem, layout, arena, f, p);
        assert SomeFastbinProblem(mem, layout, arena, bins, p);
      }
    }
  }

  lemma ArenaReportsExactly(
      mem: Mem, layout: Layout, libc: U64, threads: seq<Thread>, tls: TlsInfo, arena: Arena, p: Problem)
    requires mem.TopWordUnmapped() && layout.heapMaxSize > 0
    requires AnalyzeArena(mem, layout, libc, threads, tls, arena).Ok?
    ensures p in AnalyzeArena(mem, layout, libc, threads, tls, arena).value.1
       <==> ArenaProblem(mem, layout, libc, tls.members, arena, p)
  {
    hide ListHeaps, ChunksOf, Fastbins, Account, Attached, RegionProblem, SomeFastbinProblem;
    if ListHeaps(mem, layout, libc, arena).Ok? {
      var heaps := ListHeaps(mem, layout, libc, arena).value.0;
      HeapsBounded(mem, layout, libc, arena);
      ChunksBounded(mem, arena, heaps);
      RegionsReport(mem, arena, heaps, p);
      FastbinsReport(mem, layout, arena, layout.fastbinCount, p);
      ReportsOverdrawn(arena.index, ChunksOf(mem, arena, heaps).0, tls.members,
                       Fastbins(mem, layout, arena, layout.fastbinCount).0);
    }
  }

  lemma {:induction false} ArenasReportExactly(
      mem: Mem, layout: Layout, libc: U64, threads: seq<Thread>, tls: TlsInfo, arenas: seq<Arena>, p: Problem)
    requires mem.TopWordUnmapped() && layout.heapMaxSize > 0
    requires AnalyzeArenas(mem, layout, libc, threads, tls, arenas).Ok?
    ensures p in AnalyzeArenas(mem, layout, libc, threads, tls, arenas).value.problems
       <==> exists arena :: arena in arenas && ArenaProblem(mem, layout, libc, tls.members, arena, p)
  {
    hide AnalyzeArena, ArenaProblem;
    if arenas != [] {
      var n := |arenas| - 1;
      ArenasReportExactly(mem, layout, libc, threads, tls, arenas[..n], p);
      ArenaReportsExactly(mem, layout, libc, threads, tls, arenas[n], p);
      assert arenas == arenas[..n] + [arenas[n]];
    }
  }

  /**
   * A finished analysis reports a problem exactly when it is there: in the ring of arenas, in some thread's TLS or
   * tcache, or in some arena's heaps, chunks, fastbins or totals.
   */
  lemma ReportsExactly(mem: Mem, layout: Layout, libc: U64, threads: seq<Thread>, owners: Membership, p: Problem)
    requires mem.TopWordUnmapped() && layout.heapMaxSize > 0
    requires OwnersAre(mem, layout, libc, threads, owners)
    requires Analyze(mem, layout, libc, threads).Ok?
    ensures ListArenas(mem, layout, libc).Ok?
    ensures var (arenas, ringProblems) := ListArenas(mem, layout, libc).value;
            p in Analyze(mem, layout, libc, threads).value.problems <==>
            || p in ringProblems
            || TlsProblem(mem, layout, libc, threads, p)
            || exists arena :: arena in arenas && ArenaProblem(mem, layout, libc, owners, arena, p)
  {
    hide Resolve, AllClaims, FirstClaimWins, AnalyzeArenas, ArenaProblem, TlsProblem;
    var main := MainAddress(layout, libc);
    var tls := Resolve(mem, layout, libc, main, threads);
    ResolvedOwners(mem, layout, libc, main, threads);
    if layout.tpOffReloc.Some? {
      OwnersUnique(AllClaims(mem, layout, libc, threads), owners, tls.members);
    }
    TlsReportsExactly(mem, layout, libc, main, threads, p);
    ArenasReportExactly(mem, layout, libc, threads, tls, ListArenas(mem, layout, libc).value.0, p);
  }
}
