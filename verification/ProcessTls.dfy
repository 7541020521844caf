/** Resolving the tcaches of a process in memory. */
module ProcessTls {
  import opened Words
  import opened Memory
  import opened Orbit
  import opened FreeLists
  import opened Stats
  import opened Tls
  import opened AbstractHeap

  /** The fate is in a tcache bin that comes before bin `b` of thread `t`. */
  predicate Before(fate: Fate, t: nat, b: nat) {
    fate.Cached? && (fate.thread < t || (fate.thread == t && fate.bin < b))
  }

  /** `members` gives an owner to exactly the chunks cached before bin `b` of thread `t`: the right one. */
  ghost predicate Owns(threads: seq<Thread>, blocks: seq<Block>, members: Membership, t: nat, b: nat) {
    && (forall i :: 0 <= i < |blocks| && Before(blocks[i].fate, t, b) ==> OwnedBy(threads, blocks[i], members))
    && (forall a :: a in members ==>
          exists i :: 0 <= i < |blocks| && Before(blocks[i].fate, t, b) && UserOf(blocks[i]) == a)
  }

  ghost predicate OwnedBy(threads: seq<Thread>, block: Block, members: Membership)
    requires block.fate.Cached?
  {
    && block.fate.thread < |threads|
    && UserOf(block) in members
    && members[UserOf(block)] == Owner(threads[block.fate.thread].threadId, block.fate.bin)
  }

  /** The owners tell cached chunks from the others. */
  ghost predicate OwnersMatch(threads: seq<Thread>, blocks: seq<Block>, members: Membership) {
    forall i :: 0 <= i < |blocks| ==> OwnerMatches(threads, blocks[i], members)
  }

  ghost predicate OwnerMatches(threads: seq<Thread>, block: Block, members: Membership) {
    if block.fate.Cached? then OwnedBy(threads, block, members) else UserOf(block) !in members
  }

  lemma UserIs(layout: Layout, b: Block)
    requires SoundBlock(layout, b)
    ensures UserOf(b) == b.at + 8 && ChunkOf(b) == b.at - 8 && ChunkOf(b) != 0 && UserOf(b) != 0
  {
  }

  lemma UsersDiffer(layout: Layout, blocks: seq<Block>, i: nat, j: nat)
    requires SoundBlocks(layout, blocks) && i < |blocks| && j < |blocks|
    requires UserOf(blocks[i]) == UserOf(blocks[j])
    ensures i == j
  {
    assert SoundBlock(layout, blocks[i]) && SoundBlock(layout, blocks[j]);
    assert i == j || Disjoint(blocks[i], blocks[j]) || Disjoint(blocks[j], blocks[i]);
    UserIs(layout, blocks[i]);
    UserIs(layout, blocks[j]);
  }

  /** Claiming addresses nobody owns gives them all to the claimer, silently. */
  lemma {:induction false} FreshClaims(info: TlsInfo, addresses: seq<U64>, owner: Owner)
    requires Distinct(addresses) && forall a :: a in addresses ==> a !in info.members
    ensures var after := ClaimAll(info, addresses, owner);
            && after.problems == info.problems && after.arenas == info.arenas
            && (forall a :: a in after.members <==> a in info.members || a in addresses)
            && (forall a :: a in after.members ==>
                  after.members[a] == if a in addresses then owner else info.members[a])
  {
    if addresses != [] {
      var n := |addresses| - 1;
      FreshClaims(info, addresses[..n], owner);
      assert addresses == addresses[..n] + [addresses[n]];
      assert addresses[n] !in addresses[..n];
    }
  }

  /** The addresses on a tcache chain are those of the chunks of its fate. */
  lemma ChainAddresses(layout: Layout, p: Process, order: seq<nat>, fate: Fate)
    requires SoundBlocks(layout, p.blocks) && Orders(p, order, fate)
    ensures Distinct(Users(p, order))
    ensures forall a :: a in Users(p, order) <==>
              exists i :: 0 <= i < |p.blocks| && p.blocks[i].fate == fate && UserOf(p.blocks[i]) == a
  {
    hide SoundBlocks, UserOf;
    var users := Users(p, order);
    forall j, k | 0 <= j < k < |users|
      ensures users[j] != users[k]
    {
      if users[j] == users[k] {
        UsersDiffer(layout, p.blocks, order[j], order[k]);
      }
    }
    forall i | 0 <= i < |p.blocks| && p.blocks[i].fate == fate
      ensures UserOf(p.blocks[i]) in users
    {
      var k :| 0 <= k < |order| && order[k] == i;
      assert users[k] == UserOf(p.blocks[i]);
    }
    forall a | a in users
      ensures exists i :: 0 <= i < |p.blocks| && p.blocks[i].fate == fate && UserOf(p.blocks[i]) == a
    {
      var k :| 0 <= k < |users| && users[k] == a;
      assert UserOf(p.blocks[order[k]]) == a;
    }
  }

  lemma EntrySlot(layout: Layout, tcache: U64, b: U32)
    ensures EntryAddress(layout, tcache, b) == (tcache + layout.tcacheEntriesOffset + 8 * b) % TWO64
  {
  }

  lemma CollectsBin(
      mem: Mem, layout: Layout, tcache: U64, threads: seq<Thread>, p: Process, t: nat, b: U32, info: TlsInfo)
    requires WellFormed(layout, |threads|, p) && t < |threads| && b < layout.tcacheMaxBins
    requires HoldsTcacheBin(mem, layout, p, tcache, p.cacheOrder[t][b], b)
    requires Owns(threads, p.blocks, info.members, t, b)
    ensures var after := CollectBin(mem, layout, tcache, threads[t].threadId, b, info);
            after.problems == info.problems && Owns(threads, p.blocks, after.members, t, b + 1)
  {
    hide SoundBlocks, UserOf, EntryAddress, StoresChain, SoundShare, ClaimAll, Owns, ChainTrail, HeadOf;
    var order := p.cacheOrder[t][b];
    var users := Users(p, order);
    assert Orders(p, order, Cached(t, b));
    EntrySlot(layout, tcache, b);
    StoredChainIsFollowed(mem, layout, ENTRY_NEXT_OFFSET, users);
    ChainAddresses(layout, p, order, Cached(t, b));
    UsersAreFresh(layout, threads, p, t, b, info.members);
    FreshClaims(info, users, Owner(threads[t].threadId, b));
    assert info.problems + [] == info.problems;
    var after := ClaimAll(info, users, Owner(threads[t].threadId, b));
    OwnsMore(layout, threads, p, info.members, after.members, t, b);
  }

  lemma UsersAreFresh(layout: Layout, threads: seq<Thread>, p: Process, t: nat, b: U32, members: Membership)
    requires WellFormed(layout, |threads|, p) && t < |threads| && b < layout.tcacheMaxBins
    requires Owns(threads, p.blocks, members, t, b)
    ensures Orders(p, p.cacheOrder[t][b], Cached(t, b))
    ensures forall a :: a in Users(p, p.cacheOrder[t][b]) ==> a !in members
  {
    hide SoundBlocks, UserOf, SoundShare;
    var users := Users(p, p.cacheOrder[t][b]);
    ChainAddresses(layout, p, p.cacheOrder[t][b], Cached(t, b));
    forall a | a in users
      ensures a !in members
    {
      if a in members {
        var i :| 0 <= i < |p.blocks| && p.blocks[i].fate == Cached(t, b) && UserOf(p.blocks[i]) == a;
        var j :| 0 <= j < |p.blocks| && Before(p.blocks[j].fate, t, b) && UserOf(p.blocks[j]) == a;
        UsersDiffer(layout, p.blocks, i, j);
      }
    }
  }

  lemma OwnsMore(
      layout: Layout, threads: seq<Thread>, p: Process, members: Membership, after: Membership, t: nat, b: U32)
    requires WellFormed(layout, |threads|, p) && t < |threads| && b < layout.tcacheMaxBins
    requires Owns(threads, p.blocks, members, t, b)
    requires Orders(p, p.cacheOrder[t][b], Cached(t, b))
    requires var users := Users(p, p.cacheOrder[t][b]);
             && (forall a :: a in users ==> a !in members)
             && (forall a :: a in after <==> a in members || a in users)
             && (forall a :: a in after ==>
                   after[a] == if a in users then Owner(threads[t].threadId, b) else members[a])
    ensures Owns(threads, p.blocks, after, t, b + 1)
  {
    hide SoundBlocks, UserOf, SoundShare;
    var users := Users(p, p.cacheOrder[t][b]);
    ChainAddresses(layout, p, p.cacheOrder[t][b], Cached(t, b));
    forall i | 0 <= i < |p.blocks| && Before(p.blocks[i].fate, t, b + 1)
      ensures OwnedBy(threads, p.blocks[i], after)
    {
      if p.blocks[i].fate == Cached(t, b) {
        assert UserOf(p.blocks[i]) in users;
      } else {
        assert Before(p.blocks[i].fate, t, b) && OwnedBy(threads, p.blocks[i], members);
      }
    }
    forall a | a in after
      ensures exists i :: 0 <= i < |p.blocks| && Before(p.blocks[i].fate, t, b + 1) && UserOf(p.blocks[i]) == a
    {
      if a in users {
        var i :| 0 <= i < |p.blocks| && p.blocks[i].fate == Cached(t, b) && UserOf(p.blocks[i]) == a;
        assert Before(p.blocks[i].fate, t, b + 1);
      } else {
        var i :| 0 <= i < |p.blocks| && Before(p.blocks[i].fate, t, b) && UserOf(p.blocks[i]) == a;
        assert Before(p.blocks[i].fate, t, b + 1);
      }
    }
  }

  lemma {:induction false} CollectsBins(
      mem: Mem, layout: Layout, tcache: U64, threads: seq<Thread>, p: Process, t: nat, bins: U32, info: TlsInfo)
    requires WellFormed(layout, |threads|, p) && t < |threads| && bins <= layout.tcacheMaxBins
    requires forall b: U32 :: b < layout.tcacheMaxBins ==>
               HoldsTcacheBin(mem, layout, p, tcache, p.cacheOrder[t][b], b)
    requires Owns(threads, p.blocks, info.members, t, 0)
    ensures var after := CollectBins(mem, layout, tcache, threads[t].threadId, bins, info);
            after.problems == info.problems && Owns(threads, p.blocks, after.members, t, bins)
    decreases bins
  {
    hide Owns, CollectBin, HoldsTcacheBin, SoundBlocks, SoundShare, Orders;
    if bins > 0 {
      CollectsBins(mem, layout, tcache, threads, p, t, bins - 1, info);
      CollectsBin(mem, layout, tcache, threads, p, t, bins - 1,
                  CollectBins(mem, layout, tcache, threads[t].threadId, bins - 1, info));
    }
  }

  /** After all its bins, a thread's chunks are those before the next thread. */
  lemma OwnsThread(layout: Layout, threads: seq<Thread>, p: Process, members: Membership, t: nat, b: nat)
    requires WellFormed(layout, |threads|, p) && t < |threads|
    requires Owns(threads, p.blocks, members, t, b)
    requires b == layout.tcacheMaxBins || (b == 0 && NothingCached(p, t))
    ensures Owns(threads, p.blocks, members, t + 1, 0)
  {
    hide UserOf, SoundShare, Orders;
    forall i | 0 <= i < |p.blocks|
      ensures Before(p.blocks[i].fate, t + 1, 0) <==> Before(p.blocks[i].fate, t, b)
    {
      assert SoundBlock(layout, p.blocks[i]);
    }
    forall a | a in members
      ensures exists i :: 0 <= i < |p.blocks| && Before(p.blocks[i].fate, t + 1, 0) && UserOf(p.blocks[i]) == a
    {
      var i :| 0 <= i < |p.blocks| && Before(p.blocks[i].fate, t, b) && UserOf(p.blocks[i]) == a;
      assert Before(p.blocks[i].fate, t + 1, 0);
    }
  }

  lemma ReadsTlsWord(mem: Mem, layout: Layout, libc: U64, tp: U64, offset: U64, value: U64)
    requires layout.tpOffReloc.Some?
    ensures ReadTlsVar(mem, layout, libc, tp, offset) == Some(value) <==> TlsWord(mem, layout, libc, tp, offset, value)
  {
  }

  lemma ResolvesThread(
      mem: Mem, layout: Layout, libc: U64, main: U64, threads: seq<Thread>, p: Process, t: nat, info: TlsInfo)
    requires WellFormed(layout, |threads|, p) && t < |threads| && layout.tpOffReloc.Some?
    requires HoldsThread(mem, layout, libc, threads[t], p, t)
    requires Owns(threads, p.blocks, info.members, t, 0)
    ensures var after := ResolveThread(mem, layout, libc, main, threads[t], info);
            after.problems == info.problems && Owns(threads, p.blocks, after.members, t + 1, 0)
  {
    hide Owns, CollectBins, TlsWord, ReadTlsVar, SoundBlocks, SoundShare, Orders, HoldsTcacheBin;
    var thread := threads[t];
    var bound := BindArena(mem, layout, libc, main, thread, info).0;
    if layout.threadArena.Some? {
      var arena :| TlsWord(mem, layout, libc, thread.tp, layout.threadArena.value, arena);
      ReadsTlsWord(mem, layout, libc, thread.tp, layout.threadArena.value, arena);
    }
    assert bound.members == info.members && bound.problems == info.problems;
    if !layout.hasTcache {
      OwnsThread(layout, threads, p, bound.members, t, 0);
    } else {
      var tcache :| TlsWord(mem, layout, libc, thread.tp, layout.tcacheValue, tcache)
                    && HoldsTcache(mem, layout, p, tcache, t);
      ReadsTlsWord(mem, layout, libc, thread.tp, layout.tcacheValue, tcache);
      if tcache == 0 {
        OwnsThread(layout, threads, p, bound.members, t, 0);
      } else {
        CollectsBins(mem, layout, tcache, threads, p, t, layout.tcacheMaxBins, bound);
        OwnsThread(layout, threads, p, CollectThread(mem, layout, libc, thread, bound).0.members, t,
                   layout.tcacheMaxBins);
      }
    }
  }

  lemma {:induction false} ResolvesThreads(
      mem: Mem, layout: Layout, libc: U64, main: U64, threads: seq<Thread>, p: Process, n: nat, info: TlsInfo)
    requires WellFormed(layout, |threads|, p) && n <= |threads| && layout.tpOffReloc.Some?
    requires forall t :: 0 <= t < |threads| ==> HoldsThread(mem, layout, libc, threads[t], p, t)
    requires info == TlsInfo(map[], map[], [])
    ensures var after := ResolveAll(mem, layout, libc, main, threads[..n], info);
            after.problems == [] && Owns(threads, p.blocks, after.members, n, 0)
    decreases n
  {
    if n > 0 {
      hide Owns, HoldsThread, ResolveThread, SoundBlocks, SoundShare, Orders;
      ResolvesThreads(mem, layout, libc, main, threads, p, n - 1, info);
      assert threads[..n][..n - 1] == threads[..n - 1];
      ResolvesThread(mem, layout, libc, main, threads, p, n - 1,
                     ResolveAll(mem, layout, libc, main, threads[..n - 1], info));
    }
  }

  /** TLS resolution is silent, and owns exactly the cached chunks, each by the thread and bin that holds it. */
  lemma ResolvesOwners(mem: Mem, layout: Layout, libc: U64, main: U64, threads: seq<Thread>, p: Process)
    requires WellFormed(layout, |threads|, p)
    requires if layout.tpOffReloc.None? then forall i :: 0 <= i < |p.blocks| ==> !p.blocks[i].fate.Cached?
             else forall t :: 0 <= t < |threads| ==> HoldsThread(mem, layout, libc, threads[t], p, t)
    ensures var tls := Resolve(mem, layout, libc, main, threads);
            tls.problems == [] && OwnersMatch(threads, p.blocks, tls.members)
  {
    hide HoldsThread, SoundBlocks, SoundShare, Orders, UserOf, ResolveAll;
    var tls := Resolve(mem, layout, libc, main, threads);
    if layout.tpOffReloc.Some? {
      ResolvesThreads(mem, layout, libc, main, threads, p, |threads|, TlsInfo(map[], map[], []));
      assert threads[..|threads|] == threads;
      forall i | 0 <= i < |p.blocks|
        ensures OwnerMatches(threads, p.blocks[i], tls.members)
      {
        if p.blocks[i].fate.Cached? {
          assert Before(p.blocks[i].fate, |threads|, 0);
        } else if UserOf(p.blocks[i]) in tls.members {
          var j :| 0 <= j < |p.blocks| && Before(p.blocks[j].fate, |threads|, 0)
                   && UserOf(p.blocks[j]) == UserOf(p.blocks[i]);
          UsersDiffer(layout, p.blocks, i, j);
        }
      }
    }
  }
}
