/** Resolving threads' TLS once: who owns each cached chunk, and which arena each thread uses. */
module Tls {
  import opened Words
  import opened Memory
  import opened FreeLists
  import opened Stats

  datatype Thread = Thread(pc: U64, sp: U64, tp: U64, threadId: I32)

  ghost predicate DistinctIds(threads: seq<Thread>) {
    forall i, j :: 0 <= i < j < |threads| ==> threads[i].threadId != threads[j].threadId
  }

  /** What resolving has gathered: owners by user address, arenas by thread, and problems, in order. */
  datatype TlsInfo = TlsInfo(members: Membership, arenas: map<I32, U64>, problems: seq<Problem>)

  datatype Claim = Claim(address: U64, owner: Owner)

  /** A TLS variable's value; without the relocation every variable reads as null. */
  function ReadTlsVar(mem: Mem, layout: Layout, libc: U64, tp: U64, offset: U64): Option<U64> {
    match layout.tpOffReloc
    case None => Some(0)
    case Some(reloc) =>
      match mem.Read(WrappingAdd(libc, reloc))
      case None => None
      case Some(tpOffset) => mem.Read(WrappingAdd(WrappingAdd(tp, tpOffset), offset))
  }

  function EntryAddress(layout: Layout, base: U64, bin: U32): U64 {
    WrappingAdd(WrappingAdd(base, layout.tcacheEntriesOffset), bin * WORD)
  }

  // First owner wins; a repeat is a double free, reported and not overwritten.
  function ClaimOne(info: TlsInfo, claim: Claim): TlsInfo {
    if claim.address in info.members
    then info.(problems := info.problems + [DuplicateTcacheEntry(claim.owner.thread, claim.owner.bin, claim.address)])
    else info.(members := info.members[claim.address := claim.owner])
  }

  function ClaimAll(info: TlsInfo, addresses: seq<U64>, owner: Owner): TlsInfo {
    if addresses == [] then info
    else ClaimOne(ClaimAll(info, addresses[..|addresses| - 1], owner), Claim(addresses[|addresses| - 1], owner))
  }

  function CollectBin(mem: Mem, layout: Layout, base: U64, thread: I32, bin: U32, info: TlsInfo): TlsInfo {
    var headSlot := EntryAddress(layout, base, bin);
    match mem.Read(headSlot)
    case None => info.(problems := info.problems + [TcacheChunkReadFailed(thread, bin, headSlot)])
    case Some(head) =>
      var (result, problems) := TcacheWalk(mem, layout, head, thread, bin);
      ClaimAll(info.(problems := info.problems + problems), result.userAddrs, Owner(thread, bin))
  }

  /** The first `bins` bins of one thread's tcache. */
  function CollectBins(mem: Mem, layout: Layout, base: U64, thread: I32, bins: U32, info: TlsInfo): TlsInfo
    decreases bins
  {
    if bins == 0 then info
    else CollectBin(mem, layout, base, thread, bins - 1, CollectBins(mem, layout, base, thread, bins - 1, info))
  }

  method CollectTcache(mem: Mem, layout: Layout, base: U64, thread: I32, info: TlsInfo) returns (r: TlsInfo)
    ensures r == CollectBins(mem, layout, base, thread, layout.tcacheMaxBins, info)
  {
    r := info;
    for bin := 0 to layout.tcacheMaxBins
      invariant r == CollectBins(mem, layout, base, thread, bin, info)
    {
      var headSlot := EntryAddress(layout, base, bin);
      var head := mem.Read(headSlot);
      if head.None? {
        r := r.(problems := r.problems + [TcacheChunkReadFailed(thread, bin, headSlot)]);
        continue;
      }
      var result, problems := WalkTcacheBin(mem, layout, head.value, thread, bin);
      r := r.(problems := r.problems + problems);
      ghost var before := r;
      var addresses := result.userAddrs;
      for i := 0 to |addresses|
        invariant r == ClaimAll(before, addresses[..i], Owner(thread, bin))
      {
        assert addresses[..i + 1][..i] == addresses[..i];
        if addresses[i] in r.members {
          r := r.(problems := r.problems + [DuplicateTcacheEntry(thread, bin, addresses[i])]);
        } else {
          r := r.(members := r.members[addresses[i] := Owner(thread, bin)]);
        }
      }
      assert addresses[..|addresses|] == addresses;
    }
  }

  /** Recording a thread's arena; a null `thread_arena` means the main one. */
  function BindArena(mem: Mem, layout: Layout, libc: U64, main: U64, t: Thread, info: TlsInfo): (TlsInfo, bool) {
    match layout.threadArena
    case None => (info, false)
    case Some(variable) =>
      match ReadTlsVar(mem, layout, libc, t.tp, variable)
      case None => (info, true)
      case Some(arena) => (info.(arenas := info.arenas[t.threadId := if arena == 0 then main else arena]), false)
  }

  function CollectThread(mem: Mem, layout: Layout, libc: U64, t: Thread, info: TlsInfo): (TlsInfo, bool) {
    if !layout.hasTcache then (info, false)
    else
      match ReadTlsVar(mem, layout, libc, t.tp, layout.tcacheValue)
      case None => (info, true)
      case Some(base) =>
        if base == 0 then (info, false)
        else (CollectBins(mem, layout, base, t.threadId, layout.tcacheMaxBins, info), false)
  }

  function ResolveThread(mem: Mem, layout: Layout, libc: U64, main: U64, t: Thread, info: TlsInfo): TlsInfo {
    if t.tp == 0 then info.(problems := info.problems + [ThreadTlsResolutionFailed(t.threadId)])
    else
      var (bound, failedArena) := BindArena(mem, layout, libc, main, t, info);
      var (collected, failedTcache) := CollectThread(mem, layout, libc, t, bound);
      if failedArena || failedTcache
      then collected.(problems := collected.problems + [ThreadTlsResolutionFailed(t.threadId)])
      else collected
  }

  function ResolveAll(mem: Mem, layout: Layout, libc: U64, main: U64, threads: seq<Thread>, info: TlsInfo): TlsInfo {
    if threads == [] then info
    else
      ResolveThread(mem, layout, libc, main, threads[|threads| - 1],
                    ResolveAll(mem, layout, libc, main, threads[..|threads| - 1], info))
  }

  function Resolve(mem: Mem, layout: Layout, libc: U64, main: U64, threads: seq<Thread>): TlsInfo {
    var empty := TlsInfo(map[], map[], []);
    if layout.tpOffReloc.None? then empty
    else ResolveAll(mem, layout, libc, main, threads, empty)
  }

  method ResolveTls(mem: Mem, layout: Layout, libc: U64, main: U64, threads: seq<Thread>) returns (info: TlsInfo)
    ensures info == Resolve(mem, layout, libc, main, threads)
  {
    info := TlsInfo(map[], map[], []);
    if layout.tpOffReloc.None? {
      return;
    }
    ghost var empty := info;
    for i := 0 to |threads|
      invariant info == ResolveAll(mem, layout, libc, main, threads[..i], empty)
    {
      assert threads[..i + 1][..i] == threads[..i];
      var t := threads[i];
      if t.tp == 0 {
        info := info.(problems := info.problems + [ThreadTlsResolutionFailed(t.threadId)]);
        continue;
      }
      var tlsFailed := false;
      if layout.threadArena.Some? {
        var arena := ReadTlsVar(mem, layout, libc, t.tp, layout.threadArena.value);
        if arena.Some? {
          info := info.(arenas := info.arenas[t.threadId := if arena.value == 0 then main else arena.value]);
        } else {
          tlsFailed := true;
        }
      }
      if layout.hasTcache {
        var base := ReadTlsVar(mem, layout, libc, t.tp, layout.tcacheValue);
        if base.None? {
          tlsFailed := true;
        } else if base.value != 0 {
          info := CollectTcache(mem, layout, base.value, t.threadId, info);
        }
      }
      if tlsFailed {
        info := info.(problems := info.problems + [ThreadTlsResolutionFailed(t.threadId)]);
      }
    }
    assert threads[..|threads|] == threads;
  }
}

/** Who owns a cached chunk when several chains hold it. */
module TcacheOwnership {
  import opened Words
  import opened Memory
  import opened Orbit
  import opened FreeLists
  import opened Stats
  import opened Tls

  // ----- The chains walked, in order, as a log of claims -----

  function ClaimsOn(addresses: seq<U64>, owner: Owner): (claims: seq<Claim>)
    ensures |claims| == |addresses|
    ensures forall i :: 0 <= i < |claims| ==> claims[i] == Claim(addresses[i], owner)
  {
    seq(|addresses|, i requires 0 <= i < |addresses| => Claim(addresses[i], owner))
  }

  function BinChain(mem: Mem, layout: Layout, base: U64, bin: U32): seq<U64> {
    match mem.Read(EntryAddress(layout, base, bin))
    case None => []
    case Some(head) => ChainTrail(mem, layout, ENTRY_NEXT_OFFSET, head).nodes
  }

  function BaseOf(mem: Mem, layout: Layout, libc: U64, t: Thread): U64 {
    if t.tp == 0 || !layout.hasTcache then 0
    else
      match ReadTlsVar(mem, layout, libc, t.tp, layout.tcacheValue)
      case None => 0
      case Some(base) => base
  }

  function BinClaims(mem: Mem, layout: Layout, base: U64, thread: I32, bins: U32): seq<Claim>
    decreases bins
  {
    if bins == 0 then []
    else BinClaims(mem, layout, base, thread, bins - 1)
         + ClaimsOn(BinChain(mem, layout, base, bins - 1), Owner(thread, bins - 1))
  }

  function ThreadClaims(mem: Mem, layout: Layout, libc: U64, t: Thread): seq<Claim> {
    var base := BaseOf(mem, layout, libc, t);
    if base == 0 then [] else BinClaims(mem, layout, base, t.threadId, layout.tcacheMaxBins)
  }

  function AllClaims(mem: Mem, layout: Layout, libc: U64, threads: seq<Thread>): seq<Claim> {
    if threads == [] then []
    else AllClaims(mem, layout, libc, threads[..|threads| - 1])
         + ThreadClaims(mem, layout, libc, threads[|threads| - 1])
  }

  // ----- What a log of claims means -----

  /** `owners` gives each claimed address, and no other, to the first claim on it. */
  ghost predicate FirstClaimWins(claims: seq<Claim>, owners: Membership) {
    && (forall i :: 0 <= i < |claims| ==> claims[i].address in owners)
    && (forall a :: a in owners ==> exists i :: 0 <= i < |claims| && IsFirstOn(claims, i, a, owners[a]))
  }

  ghost predicate IsFirstOn(claims: seq<Claim>, i: int, address: U64, owner: Owner)
    requires 0 <= i < |claims|
  {
    claims[i] == Claim(address, owner) && forall j :: 0 <= j < i ==> claims[j].address != address
  }

  function Duplicates(problems: seq<Problem>): seq<Problem> {
    if problems == [] then []
    else Duplicates(problems[..|problems| - 1])
         + if problems[|problems| - 1].DuplicateTcacheEntry? then [problems[|problems| - 1]] else []
  }

  /** Claim `i` is on an address claimed before. */
  ghost predicate IsRepeat(claims: seq<Claim>, i: int)
    requires 0 <= i < |claims|
  {
    exists j :: 0 <= j < i && claims[j].address == claims[i].address
  }

  /** The state after the claims: first owners recorded, and exactly the repeats reported. */
  ghost predicate Reflects(info: TlsInfo, claims: seq<Claim>) {
    && FirstClaimWins(claims, info.members)
    && |info.members| + |Duplicates(info.problems)| == |claims|
    && forall p :: p in Duplicates(info.problems) ==> ReportedRepeat(claims, p)
  }

  predicate ReportsClaim(p: Problem, c: Claim) {
    p == DuplicateTcacheEntry(c.owner.thread, c.owner.bin, c.address)
  }

  lemma {:induction false} DuplicatesConcat(p: seq<Problem>, q: seq<Problem>)
    ensures Duplicates(p + q) == Duplicates(p) + Duplicates(q)
    decreases |q|
  {
    if q == [] {
      assert p + q == p;
    } else {
      assert (p + q)[..|p + q| - 1] == p + q[..|q| - 1];
      DuplicatesConcat(p, q[..|q| - 1]);
    }
  }

  lemma OtherProblemsKeepReflects(info: TlsInfo, more: seq<Problem>, claims: seq<Claim>)
    requires Reflects(info, claims) && forall p :: p in more ==> !p.DuplicateTcacheEntry?
    ensures Reflects(info.(problems := info.problems + more), claims)
  {
    DuplicatesConcat(info.problems, more);
    NoDuplicates(more);
  }

  lemma {:induction false} NoDuplicates(problems: seq<Problem>)
    requires forall p :: p in problems ==> !p.DuplicateTcacheEntry?
    ensures Duplicates(problems) == []
  {
    if problems != [] {
      NoDuplicates(problems[..|problems| - 1]);
    }
  }

  lemma FirstClaimExtends(claims: seq<Claim>, owners: Membership, claim: Claim)
    requires FirstClaimWins(claims, owners)
    ensures FirstClaimWins(claims + [claim],
                           if claim.address in owners then owners else owners[claim.address := claim.owner])
  {
    var all := claims + [claim];
    var after := if claim.address in owners then owners else owners[claim.address := claim.owner];
    forall a | a in after
      ensures exists i :: 0 <= i < |all| && IsFirstOn(all, i, a, after[a])
    {
      if a in owners {
        var i :| 0 <= i < |claims| && IsFirstOn(claims, i, a, owners[a]);
        assert IsFirstOn(all, i, a, after[a]);
      } else {
        assert IsFirstOn(all, |claims|, a, after[a]);
      }
    }
  }

  ghost predicate ReportedRepeat(claims: seq<Claim>, p: Problem) {
    exists i :: 0 <= i < |claims| && IsRepeat(claims, i) && ReportsClaim(p, claims[i])
  }

  lemma RepeatExtends(claims: seq<Claim>, claim: Claim, p: Problem)
    requires ReportedRepeat(claims, p)
    ensures ReportedRepeat(claims + [claim], p)
  {
    var i :| 0 <= i < |claims| && IsRepeat(claims, i) && ReportsClaim(p, claims[i]);
    var j :| 0 <= j < i && claims[j].address == claims[i].address;
    var all := claims + [claim];
    assert all[i] == claims[i] && all[j] == claims[j];
    assert IsRepeat(all, i);
  }

  lemma ClaimOneReflects(info: TlsInfo, claims: seq<Claim>, claim: Claim)
    requires Reflects(info, claims)
    ensures Reflects(ClaimOne(info, claim), claims + [claim])
  {
    var all := claims + [claim];
    FirstClaimExtends(claims, info.members, claim);
    forall p | p in Duplicates(info.problems)
      ensures ReportedRepeat(all, p)
    {
      RepeatExtends(claims, claim, p);
    }
    if claim.address in info.members {
      var p := DuplicateTcacheEntry(claim.owner.thread, claim.owner.bin, claim.address);
      DuplicatesConcat(info.problems, [p]);
      assert [p][..0] == [];
      assert Duplicates([p]) == [p];
      var i :| 0 <= i < |claims| && IsFirstOn(claims, i, claim.address, info.members[claim.address]);
      assert all[i].address == all[|claims|].address;
      assert IsRepeat(all, |claims|) && ReportsClaim(p, all[|claims|]);
    } else {
      assert (info.members[claim.address := claim.owner]).Keys == info.members.Keys + {claim.address};
    }
  }

  lemma {:induction false} ClaimAllReflects(info: TlsInfo, claims: seq<Claim>, addresses: seq<U64>, owner: Owner)
    requires Reflects(info, claims)
    ensures Reflects(ClaimAll(info, addresses, owner), claims + ClaimsOn(addresses, owner))
  {
    hide Reflects, ClaimOne;
    if addresses == [] {
      assert claims + ClaimsOn(addresses, owner) == claims;
    } else {
      var n := |addresses| - 1;
      ClaimAllReflects(info, claims, addresses[..n], owner);
      ClaimOneReflects(ClaimAll(info, addresses[..n], owner), claims + ClaimsOn(addresses[..n], owner),
                       Claim(addresses[n], owner));
      assert claims + ClaimsOn(addresses, owner)
          == claims + ClaimsOn(addresses[..n], owner) + [Claim(addresses[n], owner)];
    }
  }

  lemma CollectBinReflects(
      mem: Mem, layout: Layout, base: U64, thread: I32, bin: U32, info: TlsInfo, claims: seq<Claim>)
    requires Reflects(info, claims)
    ensures Reflects(CollectBin(mem, layout, base, thread, bin, info),
                     claims + ClaimsOn(BinChain(mem, layout, base, bin), Owner(thread, bin)))
  {
    hide Reflects;
    var chain := BinChain(mem, layout, base, bin);
    var slot := EntryAddress(layout, base, bin);
    if mem.Read(slot).None? {
      OtherProblemsKeepReflects(info, [TcacheChunkReadFailed(thread, bin, slot)], claims);
      assert claims + ClaimsOn(chain, Owner(thread, bin)) == claims;
    } else {
      var walked := TcacheWalk(mem, layout, mem.Read(slot).value, thread, bin);
      OtherProblemsKeepReflects(info, walked.1, claims);
      ClaimAllReflects(info.(problems := info.problems + walked.1), claims, chain, Owner(thread, bin));
    }
  }

  lemma {:induction false} CollectBinsReflects(
      mem: Mem, layout: Layout, base: U64, thread: I32, bins: U32, info: TlsInfo, claims: seq<Claim>)
    requires Reflects(info, claims)
    ensures Reflects(CollectBins(mem, layout, base, thread, bins, info),
                     claims + BinClaims(mem, layout, base, thread, bins))
    decreases bins
  {
    hide Reflects, CollectBin, BinChain;
    if bins == 0 {
      assert claims + [] == claims;
    } else {
      var bin := bins - 1;
      CollectBinsReflects(mem, layout, base, thread, bin, info, claims);
      var log := claims + BinClaims(mem, layout, base, thread, bin);
      CollectBinReflects(mem, layout, base, thread, bin, CollectBins(mem, layout, base, thread, bin, info), log);
      assert claims + BinClaims(mem, layout, base, thread, bins)
          == log + ClaimsOn(BinChain(mem, layout, base, bin), Owner(thread, bin));
    }
  }

  lemma {:induction false} ResolveAllReflects(
      mem: Mem, layout: Layout, libc: U64, main: U64, threads: seq<Thread>, info: TlsInfo)
    requires Reflects(info, [])
    ensures Reflects(ResolveAll(mem, layout, libc, main, threads, info), AllClaims(mem, layout, libc, threads))
  {
    if threads != [] {
      var before, t := threads[..|threads| - 1], threads[|threads| - 1];
      ResolveAllReflects(mem, layout, libc, main, before, info);
      var log := AllClaims(mem, layout, libc, before);
      var sofar := ResolveAll(mem, layout, libc, main, before, info);
      var failed := [ThreadTlsResolutionFailed(t.threadId)];
      if t.tp == 0 {
        OtherProblemsKeepReflects(sofar, failed, log);
        assert log + [] == log;
      } else {
        var bound := BindArena(mem, layout, libc, main, t, sofar).0;
        var collected := CollectThread(mem, layout, libc, t, bound).0;
        var base := BaseOf(mem, layout, libc, t);
        if base == 0 {
          assert log + [] == log;
        } else {
          CollectBinsReflects(mem, layout, base, t.threadId, layout.tcacheMaxBins, bound, log);
        }
        OtherProblemsKeepReflects(collected, failed, log + ThreadClaims(mem, layout, libc, t));
      }
    }
  }

  /**
   * After all threads and bins: the map holds exactly the addresses on the walked chains, each owned by the
   * first chain that holds it, and map entries and reported duplicates together make up all chain entries.
   */
  lemma TcacheOwners(mem: Mem, layout: Layout, libc: U64, main: U64, threads: seq<Thread>)
    requires layout.tpOffReloc.Some?
    ensures Reflects(Resolve(mem, layout, libc, main, threads), AllClaims(mem, layout, libc, threads))
  {
    ResolveAllReflects(mem, layout, libc, main, threads, TlsInfo(map[], map[], []));
  }

  // ----- With distinct thread ids, a duplicate always names another owner -----

  lemma {:induction false} BinClaimsDistinct(mem: Mem, layout: Layout, base: U64, thread: I32, bins: U32)
    ensures Distinct(BinClaims(mem, layout, base, thread, bins))
    ensures forall c :: c in BinClaims(mem, layout, base, thread, bins) ==>
              c.owner.thread == thread && c.owner.bin < bins
    decreases bins
  {
    if bins > 0 {
      BinClaimsDistinct(mem, layout, base, thread, bins - 1);
      var chain := BinChain(mem, layout, base, bins - 1);
      if mem.Read(EntryAddress(layout, base, bins - 1)).Some? {
        TrailBounded(mem, layout, ENTRY_NEXT_OFFSET, mem.Read(EntryAddress(layout, base, bins - 1)).value);
      }
      assert Distinct(ClaimsOn(chain, Owner(thread, bins - 1)));
    }
  }

  lemma {:induction false} AllClaimsDistinct(mem: Mem, layout: Layout, libc: U64, threads: seq<Thread>)
    requires DistinctIds(threads)
    ensures Distinct(AllClaims(mem, layout, libc, threads))
    ensures forall c :: c in AllClaims(mem, layout, libc, threads) ==>
              exists i :: 0 <= i < |threads| && threads[i].threadId == c.owner.thread
  {
    if threads != [] {
      var before, t := threads[..|threads| - 1], threads[|threads| - 1];
      AllClaimsDistinct(mem, layout, libc, before);
      var base := BaseOf(mem, layout, libc, t);
      BinClaimsDistinct(mem, layout, base, t.threadId, layout.tcacheMaxBins);
      var claims := ThreadClaims(mem, layout, libc, t);
      assert Distinct(claims) && forall c :: c in claims ==> c.owner.thread == t.threadId;
      assert t == threads[|threads| - 1];
      forall c | c in AllClaims(mem, layout, libc, before)
        ensures c.owner.thread != t.threadId
        ensures exists i :: 0 <= i < |threads| && threads[i].threadId == c.owner.thread
      {
        var i :| 0 <= i < |before| && before[i].threadId == c.owner.thread;
        assert threads[i] == before[i];
      }
    }
  }

  /** In a log without repetition, a claim on an address claimed before is not by its first owner. */
  lemma RepeatIsByAnother(claims: seq<Claim>, owners: Membership, p: Problem)
    requires Distinct(claims) && FirstClaimWins(claims, owners) && ReportedRepeat(claims, p)
    ensures p.DuplicateTcacheEntry? && p.address in owners && owners[p.address] != Owner(p.thread, p.bin)
  {
    var i :| 0 <= i < |claims| && IsRepeat(claims, i) && ReportsClaim(p, claims[i]);
    var first :| 0 <= first < |claims| && IsFirstOn(claims, first, p.address, owners[p.address]);
    assert first < i;
  }

  /** A reported duplicate is an address that a different thread or bin owns. */
  lemma DuplicatesNameOthers(mem: Mem, layout: Layout, libc: U64, main: U64, threads: seq<Thread>, p: Problem)
    requires layout.tpOffReloc.Some? && DistinctIds(threads)
    requires p in Duplicates(Resolve(mem, layout, libc, main, threads).problems)
    ensures var members := Resolve(mem, layout, libc, main, threads).members;
            p.DuplicateTcacheEntry? && p.address in members && members[p.address] != Owner(p.thread, p.bin)
  {
    hide AllClaims, Resolve, Duplicates, FirstClaimWins, ReportedRepeat, Distinct;
    TcacheOwners(mem, layout, libc, main, threads);
    AllClaimsDistinct(mem, layout, libc, threads);
    RepeatIsByAnother(AllClaims(mem, layout, libc, threads), Resolve(mem, layout, libc, main, threads).members, p);
  }
}
