/** The fastbin and tcache free lists: singly linked chains, safe-linked since glibc 2.32. */
module FreeLists {
  import opened Words
  import opened Bits
  import opened Memory
  import opened Orbit

  const MAX_CHAIN: nat := 10_000

  // A chunk's `fd` lies two words into the chunk; a tcache entry's `next` is its first word.
  const FD_OFFSET: U64 := 16
  const ENTRY_NEXT_OFFSET: U64 := 0

  datatype FastbinResult = FastbinResult(index: U32, size: U64, count: U64)

  datatype TcacheResult = TcacheResult(index: U32, size: U64, userAddrs: seq<U64>)

  function BinIndexToSize(i: U32): U64 {
    MINSIZE - HEADER_SIZE + i * ALIGNMENT
  }

  /** A chunk of size s, a multiple of 16 from 32 on, belongs to bin s / 16 - 2, whose payload size is s - 8. */
  lemma BinOfSize(s: U64, bin: U32)
    requires s % 16 == 0 && s >= 32
    ensures BinIndexToSize(bin) == s - 8 <==> bin == s / 16 - 2
  {
    assert s == 16 * (s / 16);
  }

  /** The key is the location of the stored pointer, shifted right by a page (12 bits). */
  function XorKey(location: U64, word: U64): (r: U64)
    ensures BitXor(location / 4096, r) == word
  {
    Pow2Values();
    XorBounded(location / 4096, word, 64);
    XorInvolution(location / 4096, word);
    BitXor(location / 4096, word)
  }

  function Reveal(layout: Layout, location: U64, stored: U64): U64 {
    if layout.hasSafeLinking then XorKey(location, stored) else stored
  }

  /** What glibc stores at `location` for a link to `pointer`. */
  function Protect(layout: Layout, location: U64, pointer: U64): U64 {
    if layout.hasSafeLinking then XorKey(location, pointer) else pointer
  }

  lemma RevealInvertsProtect(layout: Layout, location: U64, pointer: U64)
    ensures Reveal(layout, location, Protect(layout, location, pointer)) == pointer
    ensures Protect(layout, location, Reveal(layout, location, pointer)) == pointer
  {
    assert BitXor(location / 4096, XorKey(location, pointer)) == pointer;
  }

  /** The link out of a chain node whose pointer is stored `offset` bytes into it. */
  function ChainLinks(mem: Mem, layout: Layout, offset: U64): U64 -> Link<U64> {
    (node: U64) =>
      var slot := WrappingAdd(node, offset);
      match mem.Read(slot)
      case None => Broken
      case Some(stored) =>
        var next := Reveal(layout, slot, stored);
        if next == 0 then End else To(next)
  }

  function ChainTrail(mem: Mem, layout: Layout, offset: U64, head: U64): Trail<U64> {
    if head == 0 then Trail([], Ended)
    else Follow(ChainLinks(mem, layout, offset), MAX_CHAIN, head, [])
  }

  function FastbinWalk(mem: Mem, layout: Layout, head: U64, arena: U32, bin: U32): (FastbinResult, seq<Problem>) {
    var trail := ChainTrail(mem, layout, FD_OFFSET, head);
    TrailBounded(mem, layout, FD_OFFSET, head);
    (FastbinResult(bin, BinIndexToSize(bin), |trail.nodes|),
     match trail.stop
     case Ended => []
     case BrokenOff =>
       [FastbinChunkReadFailed(arena, bin, WrappingAdd(trail.nodes[|trail.nodes| - 1], FD_OFFSET))]
     case _ => [FastbinCycleDetected(arena, bin)])
  }

  function TcacheWalk(mem: Mem, layout: Layout, head: U64, thread: I32, bin: U32): (TcacheResult, seq<Problem>) {
    var trail := ChainTrail(mem, layout, ENTRY_NEXT_OFFSET, head);
    TrailBounded(mem, layout, ENTRY_NEXT_OFFSET, head);
    (TcacheResult(bin, BinIndexToSize(bin), trail.nodes),
     match trail.stop
     case Ended => []
     case BrokenOff => [TcacheChunkReadFailed(thread, bin, trail.nodes[|trail.nodes| - 1])]
     case _ => [TcacheCycleDetected(thread, bin)])
  }

  lemma TrailBounded(mem: Mem, layout: Layout, offset: U64, head: U64)
    ensures |ChainTrail(mem, layout, offset, head).nodes| <= MAX_CHAIN
    ensures ChainTrail(mem, layout, offset, head).nodes == [] <==> head == 0
    ensures Distinct(ChainTrail(mem, layout, offset, head).nodes)
  {
    FollowDecides(ChainLinks(mem, layout, offset), MAX_CHAIN, head);
  }

  method WalkFastbin(mem: Mem, layout: Layout, head: U64, arena: U32, bin: U32)
    returns (result: FastbinResult, problems: seq<Problem>)
    ensures result == FastbinWalk(mem, layout, head, arena, bin).0
    ensures problems == FastbinWalk(mem, layout, head, arena, bin).1
  {
    hide Reveal, XorKey, BinIndexToSize, Follow;
    result := FastbinResult(bin, BinIndexToSize(bin), 0);
    problems := [];
    if head == 0 {
      return;
    }
    var visited: set<U64> := {};
    var current := head;
    ghost var seen: seq<U64> := [];
    ghost var links := ChainLinks(mem, layout, FD_OFFSET);
    while true
      invariant |seen| == |visited| == result.count <= MAX_CHAIN
      invariant forall x :: x in visited <==> x in seen
      invariant result == FastbinResult(bin, BinIndexToSize(bin), |seen|) && problems == []
      invariant Follow(links, MAX_CHAIN, current, seen) == Follow(links, MAX_CHAIN, head, [])
      decreases MAX_CHAIN - |seen|
    {
      FollowUnfolds(links, MAX_CHAIN, current, seen);
      var inserted := current !in visited;
      visited := visited + {current};
      if !inserted || |visited| > MAX_CHAIN {
        problems := problems + [FastbinCycleDetected(arena, bin)];
        break;
      }
      result := result.(count := result.count + 1);
      seen := seen + [current];

      var fdSlot := WrappingAdd(current, FD_OFFSET);
      match mem.Read(fdSlot)
      case None =>
        problems := problems + [FastbinChunkReadFailed(arena, bin, fdSlot)];
        break;
      case Some(stored) =>
        var next := Reveal(layout, fdSlot, stored);
        if next == 0 {
          break;
        }
        current := next;
    }
  }

  method WalkTcacheBin(mem: Mem, layout: Layout, head: U64, thread: I32, bin: U32)
    returns (result: TcacheResult, problems: seq<Problem>)
    ensures result == TcacheWalk(mem, layout, head, thread, bin).0
    ensures problems == TcacheWalk(mem, layout, head, thread, bin).1
  {
    hide Reveal, XorKey, BinIndexToSize, Follow;
    result := TcacheResult(bin, BinIndexToSize(bin), []);
    problems := [];
    if head == 0 {
      return;
    }
    var visited: set<U64> := {};
    var current := head;
    ghost var links := ChainLinks(mem, layout, ENTRY_NEXT_OFFSET);
    while true
      invariant |result.userAddrs| == |visited| <= MAX_CHAIN
      invariant forall x :: x in visited <==> x in result.userAddrs
      invariant result.index == bin && result.size == BinIndexToSize(bin) && problems == []
      invariant Follow(links, MAX_CHAIN, current, result.userAddrs) == Follow(links, MAX_CHAIN, head, [])
      decreases MAX_CHAIN - |result.userAddrs|
    {
      FollowUnfolds(links, MAX_CHAIN, current, result.userAddrs);
      var inserted := current !in visited;
      visited := visited + {current};
      if !inserted || |visited| > MAX_CHAIN {
        problems := problems + [TcacheCycleDetected(thread, bin)];
        break;
      }
      result := result.(userAddrs := result.userAddrs + [current]);

      match mem.Read(current)
      case None =>
        problems := problems + [TcacheChunkReadFailed(thread, bin, current)];
        break;
      case Some(stored) =>
        var next := Reveal(layout, current, stored);
        if next == 0 {
          break;
        }
        current := next;
    }
  }

  // ----- In words of memory -----

  /** Where a chain node has its link. */
  function SlotOf(node: U64, offset: nat): U64 {
    (node + offset) % TWO64
  }

  /** The word at `slot` is a link to `next`: under safe linking, xored with the slot's page number. */
  predicate StoredLink(mem: Mem, layout: Layout, slot: U64, next: U64) {
    match mem.Read(slot)
    case None => false
    case Some(stored) => next == if layout.hasSafeLinking then BitXor(slot / 4096, stored) else stored
  }

  /** Memory stores the chain `nodes`: each has its link `offset` bytes in, to the next node or to null. */
  ghost predicate StoresChain(mem: Mem, layout: Layout, offset: nat, nodes: seq<U64>) {
    forall i :: 0 <= i < |nodes| ==>
      nodes[i] != 0 && StoredLink(mem, layout, SlotOf(nodes[i], offset), NextOf(nodes, i))
  }

  /** The pointer that node `i` of a chain should hold. */
  function NextOf(nodes: seq<U64>, i: nat): U64
    requires i < |nodes|
  {
    if i + 1 < |nodes| then nodes[i + 1] else 0
  }

  function HeadOf(nodes: seq<U64>): U64 {
    if nodes == [] then 0 else nodes[0]
  }

  /** The links lead along `nodes`, and the slot of the last cannot be read. */
  ghost predicate BreaksOff(mem: Mem, layout: Layout, offset: nat, nodes: seq<U64>) {
    && nodes != []
    && (forall i :: 0 <= i < |nodes| - 1 ==> LeadsOn(mem, layout, offset, nodes, i))
    && mem.Read(SlotOf(nodes[|nodes| - 1], offset)) == None
  }

  ghost predicate LeadsOn(mem: Mem, layout: Layout, offset: nat, nodes: seq<U64>, i: int)
    requires 0 <= i < |nodes| - 1
  {
    nodes[i + 1] != 0 && StoredLink(mem, layout, SlotOf(nodes[i], offset), nodes[i + 1])
  }

  lemma LinksAreWords(mem: Mem, layout: Layout, offset: U64, node: U64)
    ensures var slot, link := SlotOf(node, offset), ChainLinks(mem, layout, offset)(node);
            && (link == Broken <==> mem.Read(slot) == None)
            && (forall next: U64 :: StoredLink(mem, layout, slot, next) <==>
                               link == if next == 0 then End else To(next))
  {
    hide BitXor;
  }

  /** A stored chain is recovered exactly when it is within the cap, and then nothing is amiss. */
  lemma StoredChainIsFollowed(mem: Mem, layout: Layout, offset: U64, nodes: seq<U64>)
    requires StoresChain(mem, layout, offset, nodes)
    ensures ChainTrail(mem, layout, offset, HeadOf(nodes)) == Trail(nodes, Ended) <==> |nodes| <= MAX_CHAIN
  {
    hide ChainLinks, StoredLink, SlotOf;
    var links := ChainLinks(mem, layout, offset);
    forall i | 0 <= i < |nodes|
      ensures links(nodes[i]) == if NextOf(nodes, i) == 0 then End else To(NextOf(nodes, i))
    {
      LinksAreWords(mem, layout, offset, nodes[i]);
      assert StoredLink(mem, layout, SlotOf(nodes[i], offset), NextOf(nodes, i));
    }
    TrailBounded(mem, layout, offset, HeadOf(nodes));
    if nodes != [] && |nodes| <= MAX_CHAIN {
      var last := |nodes| - 1;
      assert links(nodes[last]) == End;
      FollowTakesPath(links, MAX_CHAIN, nodes[0], nodes, 0);
      assert nodes[..0] == [];
    }
  }

  /** A chain that breaks off within the cap is followed up to there. */
  lemma BrokenChainIsFollowed(mem: Mem, layout: Layout, offset: U64, nodes: seq<U64>)
    requires BreaksOff(mem, layout, offset, nodes) && nodes[0] != 0 && |nodes| <= MAX_CHAIN
    ensures ChainTrail(mem, layout, offset, nodes[0]) == Trail(nodes, BrokenOff)
  {
    hide ChainLinks, StoredLink, SlotOf;
    var links := ChainLinks(mem, layout, offset);
    forall i | 0 <= i < |nodes| - 1
      ensures links(nodes[i]) == To(nodes[i + 1])
    {
      assert LeadsOn(mem, layout, offset, nodes, i);
      LinksAreWords(mem, layout, offset, nodes[i]);
    }
    LinksAreWords(mem, layout, offset, nodes[|nodes| - 1]);
    FollowTakesPath(links, MAX_CHAIN, nodes[0], nodes, 0);
    assert nodes[..0] == [];
  }

  lemma NodeInWords(mem: Mem, layout: Layout, offset: U64, head: U64, i: nat)
    requires i < |ChainTrail(mem, layout, offset, head).nodes|
    ensures var trail := ChainTrail(mem, layout, offset, head);
            && trail.nodes[i] != 0
            && (i < |trail.nodes| - 1 ==> LeadsOn(mem, layout, offset, trail.nodes, i))
            && (trail.stop == Ended ==>
                  StoredLink(mem, layout, SlotOf(trail.nodes[i], offset), NextOf(trail.nodes, i)))
            && (trail.stop == BrokenOff && i == |trail.nodes| - 1 ==>
                  mem.Read(SlotOf(trail.nodes[i], offset)) == None)
  {
    hide ChainLinks, StoredLink, SlotOf, Follow;
    var links, trail := ChainLinks(mem, layout, offset), ChainTrail(mem, layout, offset, head);
    FollowDecides(links, MAX_CHAIN, head);
    LinksAreNotNull(mem, layout, offset);
    LinksAreWords(mem, layout, offset, trail.nodes[i]);
    if i > 0 {
      var before := i - 1;
      assert links(trail.nodes[before]) == To(trail.nodes[before + 1]);
    }
    assert i < |trail.nodes| - 1 ==> links(trail.nodes[i]) == To(trail.nodes[i + 1]);
  }

  /** What a chain's trail is, in words of memory. */
  lemma TrailInWords(mem: Mem, layout: Layout, offset: U64, head: U64)
    ensures var trail := ChainTrail(mem, layout, offset, head);
            && HeadOf(trail.nodes) == head
            && (forall i :: 0 <= i < |trail.nodes| - 1 ==> LeadsOn(mem, layout, offset, trail.nodes, i))
            && (trail.stop == Ended ==> StoresChain(mem, layout, offset, trail.nodes))
            && (trail.stop == BrokenOff ==> BreaksOff(mem, layout, offset, trail.nodes))
  {
    hide LeadsOn, StoredLink, SlotOf, Follow, ChainLinks;
    var trail := ChainTrail(mem, layout, offset, head);
    FollowDecides(ChainLinks(mem, layout, offset), MAX_CHAIN, head);
    forall i | 0 <= i < |trail.nodes|
      ensures trail.nodes[i] != 0
      ensures i < |trail.nodes| - 1 ==> LeadsOn(mem, layout, offset, trail.nodes, i)
      ensures trail.stop == Ended ==>
                StoredLink(mem, layout, SlotOf(trail.nodes[i], offset), NextOf(trail.nodes, i))
      ensures trail.stop == BrokenOff && i == |trail.nodes| - 1 ==> mem.Read(SlotOf(trail.nodes[i], offset)) == None
    {
      NodeInWords(mem, layout, offset, head, i);
    }
  }

  lemma LinksAreNotNull(mem: Mem, layout: Layout, offset: U64)
    ensures forall node: U64 ::
              ChainLinks(mem, layout, offset)(node).To? ==> ChainLinks(mem, layout, offset)(node).next != 0
  {
    hide BitXor;
  }

  /** The chain from `head` that memory stores reaches null within the cap. */
  ghost predicate ReachesNull(mem: Mem, layout: Layout, offset: nat, head: U64) {
    exists nodes :: StoresChain(mem, layout, offset, nodes) && HeadOf(nodes) == head && |nodes| <= 10_000
  }

  /** The chain from `head` that memory stores runs into the unreadable slot `at` within the cap. */
  ghost predicate RunsInto(mem: Mem, layout: Layout, offset: nat, head: U64, at: U64) {
    exists nodes ::
      && nodes != [] && BreaksOff(mem, layout, offset, nodes) && nodes[0] == head && |nodes| <= 10_000
      && at == SlotOf(nodes[|nodes| - 1], offset)
  }

  lemma TrailDecides(mem: Mem, layout: Layout, offset: U64, head: U64)
    ensures var trail := ChainTrail(mem, layout, offset, head);
            && (trail.stop == Ended <==> ReachesNull(mem, layout, offset, head))
            && (trail.stop == BrokenOff ==>
                  head != 0 && trail.nodes != [] && RunsInto(mem, layout, offset, head, SlotOf(trail.nodes[|trail.nodes| - 1], offset)))
            && (forall at :: head != 0 && RunsInto(mem, layout, offset, head, at) ==>
                  trail.stop == BrokenOff && trail.nodes != [] && at == SlotOf(trail.nodes[|trail.nodes| - 1], offset))
            && (forall nodes ::
                  StoresChain(mem, layout, offset, nodes) && HeadOf(nodes) == head && |nodes| <= MAX_CHAIN ==>
                    trail.nodes == nodes)
  {
    hide ChainTrail, StoresChain, BreaksOff, SlotOf;
    var trail := ChainTrail(mem, layout, offset, head);
    TrailInWords(mem, layout, offset, head);
    TrailBounded(mem, layout, offset, head);
    TrailOfNull(mem, layout, offset);
    forall nodes: seq<U64> | StoresChain(mem, layout, offset, nodes) && HeadOf(nodes) == head && |nodes| <= MAX_CHAIN
      ensures trail == Trail(nodes, Ended)
    {
      StoredChainIsFollowed(mem, layout, offset, nodes);
    }
    if trail.stop == BrokenOff {
      assert BreaksOff(mem, layout, offset, trail.nodes);
    }
    forall nodes: seq<U64> |
        nodes != [] && BreaksOff(mem, layout, offset, nodes) && nodes[0] == head && head != 0 && |nodes| <= MAX_CHAIN
      ensures trail == Trail(nodes, BrokenOff)
    {
      BrokenChainIsFollowed(mem, layout, offset, nodes);
    }
  }

  lemma TrailOfNull(mem: Mem, layout: Layout, offset: U64)
    ensures ChainTrail(mem, layout, offset, 0) == Trail([], Ended)
  {
  }

  /**
   * A free-list walk is silent exactly when the chain in memory reaches null within the cap, and then gives that
   * chain; it reports an unreadable chunk exactly when the chain runs into one within the cap, and a cycle
   * otherwise. What it gives is always a repetition-free part of the chain, from the head on.
   */
  lemma FreeListWalksDecide(mem: Mem, layout: Layout, head: U64, arena: U32, thread: I32, bin: U32)
    ensures var (result, problems) := FastbinWalk(mem, layout, head, arena, bin);
            && (problems == [] <==> ReachesNull(mem, layout, 16, head))
            && (forall at :: problems == [FastbinChunkReadFailed(arena, bin, at)] <==>
                             head != 0 && RunsInto(mem, layout, 16, head, at))
            && (problems == [] || problems == [FastbinCycleDetected(arena, bin)]
                || exists at :: problems == [FastbinChunkReadFailed(arena, bin, at)])
            && result.index == bin && result.size == 24 + 16 * bin
            && (forall nodes :: StoresChain(mem, layout, 16, nodes) && HeadOf(nodes) == head && |nodes| <= MAX_CHAIN ==>
                  result.count == |nodes|)
            && (exists nodes :: IsPart(mem, layout, 16, head, nodes) && result.count == |nodes|)
    ensures var (result, problems) := TcacheWalk(mem, layout, head, thread, bin);
            && (problems == [] <==> ReachesNull(mem, layout, 0, head))
            && (forall at :: problems == [TcacheChunkReadFailed(thread, bin, at)] <==>
                             head != 0 && RunsInto(mem, layout, 0, head, at))
            && (problems == [] || problems == [TcacheCycleDetected(thread, bin)]
                || exists at :: problems == [TcacheChunkReadFailed(thread, bin, at)])
            && result.index == bin && result.size == 24 + 16 * bin
            && (forall nodes :: StoresChain(mem, layout, 0, nodes) && HeadOf(nodes) == head && |nodes| <= MAX_CHAIN ==>
                  result.userAddrs == nodes)
            && IsPart(mem, layout, 0, head, result.userAddrs)
  {
    hide ChainTrail, ReachesNull, RunsInto, StoresChain;
    TrailDecides(mem, layout, FD_OFFSET, head);
    TrailDecides(mem, layout, ENTRY_NEXT_OFFSET, head);
    TrailIsPart(mem, layout, FD_OFFSET, head);
    TrailIsPart(mem, layout, ENTRY_NEXT_OFFSET, head);
  }

  /** A repetition-free part of the chain from `head`, within the cap; empty only for a null head. */
  ghost predicate IsPart(mem: Mem, layout: Layout, offset: nat, head: U64, nodes: seq<U64>) {
    && HeadOf(nodes) == head
    && Distinct(nodes)
    && |nodes| <= MAX_CHAIN
    && forall i :: 0 <= i < |nodes| - 1 ==> LeadsOn(mem, layout, offset, nodes, i)
  }

  lemma TrailIsPart(mem: Mem, layout: Layout, offset: U64, head: U64)
    ensures IsPart(mem, layout, offset, head, ChainTrail(mem, layout, offset, head).nodes)
  {
    hide ChainTrail, LeadsOn, SlotOf;
    TrailInWords(mem, layout, offset, head);
    TrailBounded(mem, layout, offset, head);
  }
}
