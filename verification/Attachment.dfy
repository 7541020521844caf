/** Which arena each thread is reported under. */
module Attachment {
  import opened Words
  import opened Memory
  import opened Orbit
  import opened Arenas
  import opened Stats
  import opened FreeLists
  import opened HeapList
  import opened Tls
  import opened Pipeline

  /** The arena a thread's TLS names, when it can be read: null stands for the main arena. */
  function ArenaOf(mem: Mem, layout: Layout, libc: U64, main: U64, t: Thread): Option<U64> {
    if layout.tpOffReloc.None? || t.tp == 0 || layout.threadArena.None? then None
    else
      match ReadTlsVar(mem, layout, libc, t.tp, layout.threadArena.value)
      case None => None
      case Some(arena) => Some(if arena == 0 then main else arena)
  }

  lemma {:induction false} CollectingKeepsArenas(
      mem: Mem, layout: Layout, base: U64, thread: I32, bins: U32, info: TlsInfo)
    ensures CollectBins(mem, layout, base, thread, bins, info).arenas == info.arenas
    decreases bins
  {
    if bins > 0 {
      CollectingKeepsArenas(mem, layout, base, thread, bins - 1, info);
      var sofar := CollectBins(mem, layout, base, thread, bins - 1, info);
      match mem.Read(EntryAddress(layout, base, bins - 1))
      case None =>
      case Some(head) =>
        var (result, problems) := TcacheWalk(mem, layout, head, thread, bins - 1);
        ClaimingKeepsArenas(sofar.(problems := sofar.problems + problems), result.userAddrs, Owner(thread, bins - 1));
    }
  }

  lemma {:induction false} ClaimingKeepsArenas(info: TlsInfo, addresses: seq<U64>, owner: Owner)
    ensures ClaimAll(info, addresses, owner).arenas == info.arenas
  {
    if addresses != [] {
      ClaimingKeepsArenas(info, addresses[..|addresses| - 1], owner);
    }
  }

  /** With distinct ids, the thread map holds exactly what each thread's own TLS names. */
  lemma {:induction false} ThreadMapExactly(mem: Mem, layout: Layout, libc: U64, main: U64, threads: seq<Thread>)
    requires layout.tpOffReloc.Some? && DistinctIds(threads)
    ensures var arenas := ResolveAll(mem, layout, libc, main, threads, TlsInfo(map[], map[], [])).arenas;
            && (forall t :: t in threads ==>
                  (if t.threadId in arenas then Some(arenas[t.threadId]) else None)
                  == ArenaOf(mem, layout, libc, main, t))
            && (forall id :: id in arenas ==> exists t :: t in threads && t.threadId == id)
  {
    hide ReadTlsVar, CollectBins;
    if threads != [] {
      var before, t := threads[..|threads| - 1], threads[|threads| - 1];
      ThreadMapExactly(mem, layout, libc, main, before);
      var sofar := ResolveAll(mem, layout, libc, main, before, TlsInfo(map[], map[], []));
      var all := ResolveAll(mem, layout, libc, main, threads, TlsInfo(map[], map[], []));
      assert forall u :: u in before ==> u in threads && u.threadId != t.threadId;
      assert threads == before + [t];
      ThreadBinds(mem, layout, libc, main, t, sofar);
      assert t.threadId !in sofar.arenas;
    }
  }

  lemma ThreadBinds(mem: Mem, layout: Layout, libc: U64, main: U64, t: Thread, info: TlsInfo)
    requires layout.tpOffReloc.Some?
    ensures ResolveThread(mem, layout, libc, main, t, info).arenas
         == match ArenaOf(mem, layout, libc, main, t)
            case None => info.arenas
            case Some(arena) => info.arenas[t.threadId := arena]
  {
    hide ReadTlsVar, CollectBins;
    if t.tp != 0 && layout.hasTcache {
      var bound := BindArena(mem, layout, libc, main, t, info).0;
      match ReadTlsVar(mem, layout, libc, t.tp, layout.tcacheValue)
      case None =>
      case Some(base) => CollectingKeepsArenas(mem, layout, base, t.threadId, layout.tcacheMaxBins, bound);
    }
  }

  /** A thread with its own id is listed under an arena exactly when its TLS names that arena. */
  lemma AttachedExactly(mem: Mem, layout: Layout, libc: U64, main: U64, threads: seq<Thread>, arena: Arena)
    requires DistinctIds(threads)
    ensures var attached := Attached(arena, threads, Resolve(mem, layout, libc, main, threads).arenas);
            && Distinct(attached)
            && (forall t :: t in threads ==>
                  (t.threadId in attached <==> ArenaOf(mem, layout, libc, main, t) == Some(arena.mallocStateAddr)))
            && (forall id :: id in attached ==> exists t :: t in threads && t.threadId == id)
  {
    var arenas := Resolve(mem, layout, libc, main, threads).arenas;
    AttachedIsFilter(arena, threads, arenas);
    if layout.tpOffReloc.Some? {
      ThreadMapExactly(mem, layout, libc, main, threads);
    }
  }

  lemma {:induction false} AttachedIsFilter(arena: Arena, threads: seq<Thread>, arenas: map<I32, U64>)
    ensures var attached := Attached(arena, threads, arenas);
            && (forall id :: id in attached <==>
                  (exists t :: t in threads && t.threadId == id) && id in arenas && arenas[id] == arena.mallocStateAddr)
            && (DistinctIds(threads) ==> Distinct(attached))
  {
    if threads != [] {
      var before, t := threads[..|threads| - 1], threads[|threads| - 1];
      AttachedIsFilter(arena, before, arenas);
      assert threads == before + [t];
      assert DistinctIds(threads) ==> forall u :: u in before ==> u.threadId != t.threadId;
    }
  }

  /** The ids are those of some of the threads, in the order of the threads. */
  ghost predicate InThreadOrder(ids: seq<I32>, threads: seq<Thread>) {
    exists at: seq<nat> :: Picks(at, ids, threads)
  }

  ghost predicate Picks(at: seq<nat>, ids: seq<I32>, threads: seq<Thread>) {
    && |at| == |ids|
    && (forall k :: 0 <= k < |at| ==> at[k] < |threads| && threads[at[k]].threadId == ids[k])
    && forall j, k :: 0 <= j < k < |at| ==> at[j] < at[k]
  }

  /** Threads are listed under an arena in the order of their notes. */
  lemma {:induction false} AttachedInOrder(arena: Arena, threads: seq<Thread>, arenas: map<I32, U64>)
    ensures InThreadOrder(Attached(arena, threads, arenas), threads)
  {
    if threads == [] {
      assert Picks([], [], threads);
    } else {
      var n := |threads| - 1;
      AttachedInOrder(arena, threads[..n], arenas);
      var before := Attached(arena, threads[..n], arenas);
      var at :| Picks(at, before, threads[..n]);
      if Attached(arena, threads, arenas) == before + [threads[n].threadId] {
        assert Picks(at + [n], before + [threads[n].threadId], threads);
      } else {
        assert Attached(arena, threads, arenas) == before + [] == before;
        assert Picks(at, before, threads);
      }
    }
  }

  /** Whatever the memory, no thread is listed under two arenas. */
  lemma ListedUnderOneArena(mem: Mem, layout: Layout, libc: U64, threads: seq<Thread>, i: nat, j: nat, id: I32)
    requires ListArenas(mem, layout, libc).Ok?
    requires var arenas := ListArenas(mem, layout, libc).value.0; i < j < |arenas|
    ensures var arenas := ListArenas(mem, layout, libc).value.0;
            var bindings := Resolve(mem, layout, libc, MainAddress(layout, libc), threads).arenas;
            !(id in Attached(arenas[i], threads, bindings) && id in Attached(arenas[j], threads, bindings))
  {
    var arenas := ListArenas(mem, layout, libc).value.0;
    var bindings := Resolve(mem, layout, libc, MainAddress(layout, libc), threads).arenas;
    ArenaRing(mem, layout, libc);
    AttachedIsFilter(arenas[i], threads, bindings);
    AttachedIsFilter(arenas[j], threads, bindings);
  }

  lemma {:induction false} ReportsAttach(
      mem: Mem, layout: Layout, libc: U64, threads: seq<Thread>, tls: TlsInfo, arenas: seq<Arena>)
    requires mem.TopWordUnmapped() && layout.heapMaxSize > 0
    requires AnalyzeArenas(mem, layout, libc, threads, tls, arenas).Ok?
    ensures var reports := AnalyzeArenas(mem, layout, libc, threads, tls, arenas).value.reports;
            && |reports| == |arenas|
            && forall i :: 0 <= i < |reports| ==> reports[i].attachedThreads == Attached(arenas[i], threads, tls.arenas)
  {
    if arenas != [] {
      var last := arenas[|arenas| - 1];
      ReportsAttach(mem, layout, libc, threads, tls, arenas[..|arenas| - 1]);
      ReportAttaches(mem, layout, libc, threads, tls, last);
      hide AnalyzeArena, Attached;
    }
  }

  lemma ReportAttaches(mem: Mem, layout: Layout, libc: U64, threads: seq<Thread>, tls: TlsInfo, arena: Arena)
    requires mem.TopWordUnmapped() && layout.heapMaxSize > 0
    requires AnalyzeArena(mem, layout, libc, threads, tls, arena).Ok?
    ensures AnalyzeArena(mem, layout, libc, threads, tls, arena).value.0.attachedThreads
         == Attached(arena, threads, tls.arenas)
  {
    hide ListHeaps, ChunksOf, Fastbins, Account, Attached;
  }

  /**
   * For any memory: in the report of each arena, stub or not, a thread is listed exactly when its own TLS names
   * that arena.
   */
  lemma ThreadsReportedWhereTheyBelong(mem: Mem, layout: Layout, libc: U64, threads: seq<Thread>)
    requires mem.TopWordUnmapped() && layout.heapMaxSize > 0 && DistinctIds(threads)
    requires Analyze(mem, layout, libc, threads).Ok?
    ensures ListArenas(mem, layout, libc).Ok?
    ensures var arenas, reports := ListArenas(mem, layout, libc).value.0, Analyze(mem, layout, libc, threads).value.reports;
            && |reports| == |arenas|
            && forall i, t :: 0 <= i < |reports| && t in threads ==>
                 (t.threadId in reports[i].attachedThreads <==>
                  ArenaOf(mem, layout, libc, MainAddress(layout, libc), t) == Some(arenas[i].mallocStateAddr))
  {
    hide AnalyzeArenas, Attached, ArenaOf, Resolve;
    var arenas, main := ListArenas(mem, layout, libc).value.0, MainAddress(layout, libc);
    ReportsAttach(mem, layout, libc, threads, Resolve(mem, layout, libc, main, threads), arenas);
    forall i | 0 <= i < |arenas|
      ensures forall t :: t in threads ==>
                (t.threadId in Attached(arenas[i], threads, Resolve(mem, layout, libc, main, threads).arenas) <==>
                 ArenaOf(mem, layout, libc, main, t) == Some(arenas[i].mallocStateAddr))
    {
      AttachedExactly(mem, layout, libc, main, threads, arenas[i]);
    }
  }
}
