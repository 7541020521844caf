/** Enumerating arenas along the ring of `malloc_state.next` pointers. */
module Arenas {
  import opened Words
  import opened Memory
  import opened Orbit

  const MAX_ARENAS: nat := 1024

  datatype Arena = Arena(mallocStateAddr: U64, index: U32) {
    predicate IsMain() {
      index == 0
    }
  }

  function MainAddress(layout: Layout, libc: U64): U64 {
    WrappingAdd(libc, layout.mainArenaValue)
  }

  /** Only a link back to the main arena, or null, ends the ring. */
  function RingLinks(mem: Mem, layout: Layout, main: U64): U64 -> Link<U64> {
    (arena: U64) =>
      match mem.Read(WrappingAdd(arena, layout.nextOffset))
      case None => Broken
      case Some(next) => if next == main || next == 0 then End else To(next)
  }

  function Ring(links: U64 -> Link<U64>, found: seq<U64>): (seq<U64>, seq<Problem>)
    requires 0 < |found| <= MAX_ARENAS
    decreases MAX_ARENAS - |found|
  {
    if |found| == MAX_ARENAS then (found, [HeapWalkTruncated(|found|, ArenaLimit)])
    else
      match links(found[|found| - 1])
      case Broken => (found, [HeapWalkTruncated(|found|, NextUnreadable)])
      case End => (found, [])
      case To(next) =>
        if next in found then (found, [HeapWalkTruncated(|found|, ArenaCycle)])
        else if links(next) == Broken then (found, [HeapWalkTruncated(|found|, NextArenaUnreadable)])
        else Ring(links, found + [next])
  }

  function ArenasAt(addresses: seq<U64>): (arenas: seq<Arena>)
    requires |addresses| <= MAX_ARENAS
    ensures |arenas| == |addresses|
    ensures forall i :: 0 <= i < |arenas| ==> arenas[i] == Arena(addresses[i], i)
  {
    seq(|addresses|, i requires 0 <= i < |addresses| => Arena(addresses[i], i))
  }

  function ListArenas(mem: Mem, layout: Layout, libc: U64): Result<(seq<Arena>, seq<Problem>), Error> {
    var main := MainAddress(layout, libc);
    var topSlot := WrappingAdd(main, layout.topOffset);
    if mem.Read(topSlot).None? then Err(AddressNotMapped(topSlot))
    else
      var (addresses, problems) := Ring(RingLinks(mem, layout, main), [main]);
      RingWalk(RingLinks(mem, layout, main), main, [main]);
      Ok((ArenasAt(addresses), problems))
  }

  method List(mem: Mem, layout: Layout, libc: U64) returns (r: Result<(seq<Arena>, seq<Problem>), Error>)
    ensures r == ListArenas(mem, layout, libc)
  {
    var mainAddr := MainAddress(layout, libc);
    var topSlot := WrappingAdd(mainAddr, layout.topOffset);
    if mem.Read(topSlot).None? {
      return Err(AddressNotMapped(topSlot));
    }
    var arenas := [Arena(mainAddr, 0)];
    var problems: seq<Problem> := [];
    var visited := {mainAddr};
    var current := mainAddr;
    var index: U32 := 1;
    ghost var links := RingLinks(mem, layout, mainAddr);
    ghost var found := [mainAddr];
    while true
      invariant |found| == index <= MAX_ARENAS && current == found[|found| - 1]
      invariant arenas == ArenasAt(found) && problems == []
      invariant forall x :: x in visited <==> x in found
      invariant Ring(links, found) == Ring(links, [mainAddr])
      decreases MAX_ARENAS - index
    {
      if index >= MAX_ARENAS {
        problems := [HeapWalkTruncated(index, ArenaLimit)];
        break;
      }
      var read := mem.Read(WrappingAdd(current, layout.nextOffset));
      if read.None? {
        problems := [HeapWalkTruncated(index, NextUnreadable)];
        break;
      }
      var next := read.value;
      if next == mainAddr || next == 0 {
        break;
      }
      var inserted := next !in visited;
      visited := visited + {next};
      if !inserted {
        problems := [HeapWalkTruncated(index, ArenaCycle)];
        break;
      }
      if mem.Read(WrappingAdd(next, layout.nextOffset)).None? {
        problems := [HeapWalkTruncated(index, NextArenaUnreadable)];
        break;
      }
      arenas := arenas + [Arena(next, index)];
      current := next;
      index := index + 1;
      found := found + [next];
    }
    assert Ring(links, [mainAddr]) == (found, problems);
    r := Ok((arenas, problems));
  }

  lemma {:induction false} RingWalk(links: U64 -> Link<U64>, main: U64, found: seq<U64>)
    requires 0 < |found| <= MAX_ARENAS && IsPath(links, main, found) && Distinct(found)
    ensures var (nodes, problems) := Ring(links, found);
            && IsPath(links, main, nodes) && Distinct(nodes) && |nodes| <= MAX_ARENAS
            && RingStops(links, nodes, problems)
    decreases MAX_ARENAS - |found|
  {
    if |found| < MAX_ARENAS && links(found[|found| - 1]).To? {
      var next := links(found[|found| - 1]).next;
      if next !in found && links(next) != Broken {
        RingWalk(links, main, found + [next]);
      }
    }
  }

  /** Why the ring is followed no further, and what is reported then. */
  ghost predicate RingStops(links: U64 -> Link<U64>, nodes: seq<U64>, problems: seq<Problem>)
    requires 0 < |nodes| <= MAX_ARENAS
  {
    var link := links(nodes[|nodes| - 1]);
    if |nodes| == MAX_ARENAS then problems == [HeapWalkTruncated(|nodes|, ArenaLimit)]
    else
      match link
      case Broken => problems == [HeapWalkTruncated(|nodes|, NextUnreadable)]
      case End => problems == []
      case To(next) =>
        if next in nodes then problems == [HeapWalkTruncated(|nodes|, ArenaCycle)]
        else links(next) == Broken && problems == [HeapWalkTruncated(|nodes|, NextArenaUnreadable)]
  }

  lemma {:induction false} RingTakesPath(links: U64 -> Link<U64>, main: U64, path: seq<U64>, k: nat)
    requires IsPath(links, main, path) && links(path[|path| - 1]) == End
    requires 0 < k <= |path| < MAX_ARENAS
    ensures Ring(links, path[..k]) == (path, [])
    decreases |path| - k
  {
    if k < |path| {
      StoppingPathIsDistinct(links, main, path);
      assert links(path[k - 1]) == To(path[k]) && path[k] !in path[..k];
      assert k + 1 < |path| ==> links(path[k]) == To(path[k + 1]);
      assert path[..k] + [path[k]] == path[..k + 1];
      RingTakesPath(links, main, path, k + 1);
    } else {
      assert path[..k] == path;
    }
  }

  /** The `next` word of an arena. */
  function NextWord(mem: Mem, layout: Layout, arena: U64): Option<U64> {
    mem.Read((arena + layout.nextOffset) % TWO64)
  }

  lemma LinksAreWords(mem: Mem, layout: Layout, main: U64)
    ensures forall arena: U64 ::
              RingLinks(mem, layout, main)(arena) ==
              match NextWord(mem, layout, arena)
              case None => Broken
              case Some(next) => if next == main || next == 0 then End else To(next)
  {
  }

  /** Arenas from the main one on, each the `next` word of the one before; the last leads back to it, or to null. */
  ghost predicate RingPath(mem: Mem, layout: Layout, main: U64, path: seq<U64>) {
    && |path| > 0
    && path[0] == main
    && (forall i :: 0 <= i < |path| - 1 ==> RingStep(mem, layout, main, path, i))
    && NextWord(mem, layout, path[|path| - 1]) in {Some(main), Some(0)}
  }

  ghost predicate RingStep(mem: Mem, layout: Layout, main: U64, path: seq<U64>, i: int)
    requires 0 <= i < |path| - 1
  {
    NextWord(mem, layout, path[i]) == Some(path[i + 1]) && path[i + 1] != main && path[i + 1] != 0
  }

  /** The listing stops, in words of memory, where its last arena's `next` word gives nothing more. */
  ghost predicate ListingStops(mem: Mem, layout: Layout, main: U64, arenas: seq<Arena>, problems: seq<Problem>)
    requires 0 < |arenas| <= MAX_ARENAS
  {
    if |arenas| == MAX_ARENAS then problems == [HeapWalkTruncated(|arenas|, ArenaLimit)]
    else
      match NextWord(mem, layout, arenas[|arenas| - 1].mallocStateAddr)
      case None => problems == [HeapWalkTruncated(|arenas|, NextUnreadable)]
      case Some(next) =>
        if next == main || next == 0 then problems == []
        else if exists i :: 0 <= i < |arenas| && arenas[i].mallocStateAddr == next then
          problems == [HeapWalkTruncated(|arenas|, ArenaCycle)]
        else
          NextWord(mem, layout, next) == None && problems == [HeapWalkTruncated(|arenas|, NextArenaUnreadable)]
  }

  /**
   * The listing in words of memory: the arenas along the `next` words, without repetition, numbered from the main
   * one on, as far as they go. Nothing is reported exactly when the words lead back within the limit.
   */
  lemma ArenaRing(mem: Mem, layout: Layout, libc: U64)
    ensures var main := (libc + layout.mainArenaValue) % TWO64;
            var top := (main + layout.topOffset) % TWO64;
            && (ListArenas(mem, layout, libc) == Err(AddressNotMapped(top)) <==> mem.Read(top) == None)
            && (mem.Read(top).Some? ==> ListArenas(mem, layout, libc).Ok?)
    ensures ListArenas(mem, layout, libc).Ok? ==>
              var main := (libc + layout.mainArenaValue) % TWO64;
              var (arenas, problems) := ListArenas(mem, layout, libc).value;
              && 0 < |arenas| <= MAX_ARENAS
              && arenas[0].mallocStateAddr == main == MainAddress(layout, libc)
              && (forall i :: 0 <= i < |arenas| ==> arenas[i].index == i)
              && (forall i, j :: 0 <= i < j < |arenas| ==> arenas[i].mallocStateAddr != arenas[j].mallocStateAddr)
              && (forall i :: 0 <= i < |arenas| - 1 ==>
                    NextWord(mem, layout, arenas[i].mallocStateAddr) == Some(arenas[i + 1].mallocStateAddr))
              && ListingStops(mem, layout, main, arenas, problems)
              && (problems == [] <==> exists path :: RingPath(mem, layout, main, path) && |path| < 1024)
  {
    hide RingLinks, NextWord, RingPath, ListingStops, RingStops, Ring;
    if ListArenas(mem, layout, libc).Ok? {
      var main := MainAddress(layout, libc);
      var links := RingLinks(mem, layout, main);
      var (nodes, problems) := Ring(links, [main]);
      RingWalk(links, main, [main]);
      LinksAreWords(mem, layout, main);
      forall i | 0 <= i < |nodes| - 1
        ensures NextWord(mem, layout, nodes[i]) == Some(nodes[i + 1])
      {
        assert links(nodes[i]) == To(nodes[i + 1]);
      }
      StopsInWords(mem, layout, main, nodes, problems);
      RingPathDecides(mem, layout, libc);
    }
  }

  lemma StopsInWords(mem: Mem, layout: Layout, main: U64, nodes: seq<U64>, problems: seq<Problem>)
    requires 0 < |nodes| <= MAX_ARENAS && RingStops(RingLinks(mem, layout, main), nodes, problems)
    ensures ListingStops(mem, layout, main, ArenasAt(nodes), problems)
  {
    hide RingLinks, NextWord;
    LinksAreWords(mem, layout, main);
    var arenas := ArenasAt(nodes);
    forall next
      ensures next in nodes <==> exists i :: 0 <= i < |arenas| && arenas[i].mallocStateAddr == next
    {
      if next in nodes {
        var i :| 0 <= i < |nodes| && nodes[i] == next;
        assert arenas[i].mallocStateAddr == next;
      }
    }
  }

  /** A ring that leads back within the limit is listed whole, and silently. */
  lemma RingPathIsListed(mem: Mem, layout: Layout, libc: U64, path: seq<U64>)
    requires RingPath(mem, layout, MainAddress(layout, libc), path) && |path| < MAX_ARENAS
    requires mem.Read((MainAddress(layout, libc) + layout.topOffset) % TWO64).Some?
    ensures ListArenas(mem, layout, libc) == Ok((ArenasAt(path), []))
  {
    hide RingLinks, NextWord, Ring, MainAddress;
    var main := MainAddress(layout, libc);
    var links := RingLinks(mem, layout, main);
    LinksAreWords(mem, layout, main);
    forall i | 0 <= i < |path| - 1
      ensures links(path[i]) == To(path[i + 1])
    {
      assert RingStep(mem, layout, main, path, i);
    }
    assert links(path[|path| - 1]) == End && path[..1] == [main];
    RingTakesPath(links, main, path, 1);
  }

  lemma RingPathDecides(mem: Mem, layout: Layout, libc: U64)
    requires ListArenas(mem, layout, libc).Ok?
    ensures ListArenas(mem, layout, libc).value.1 == []
       <==> exists path :: RingPath(mem, layout, MainAddress(layout, libc), path) && |path| < MAX_ARENAS
  {
    hide RingLinks, NextWord, Ring;
    var main := MainAddress(layout, libc);
    var links := RingLinks(mem, layout, main);
    var (nodes, problems) := Ring(links, [main]);
    RingWalk(links, main, [main]);
    LinksAreWords(mem, layout, main);
    if problems == [] {
      forall i | 0 <= i < |nodes| - 1
        ensures RingStep(mem, layout, main, nodes, i)
      {
        assert links(nodes[i]) == To(nodes[i + 1]);
      }
      assert RingPath(mem, layout, main, nodes);
    }
    forall path | RingPath(mem, layout, main, path) && |path| < MAX_ARENAS
      ensures problems == []
    {
      forall i | 0 <= i < |path| - 1
        ensures links(path[i]) == To(path[i + 1])
      {
        assert RingStep(mem, layout, main, path, i);
      }
      assert links(path[|path| - 1]) == End && path[..1] == [main];
      RingTakesPath(links, main, path, 1);
    }
  }

  /** A ring that closes on anything but the main arena is always reported. */
  lemma MidChainCycleIsReported(mem: Mem, layout: Layout, libc: U64, loop: seq<U64>, back: int)
    requires ListArenas(mem, layout, libc).Ok?
    requires |loop| > 0 && loop[0] == MainAddress(layout, libc) && 0 < back < |loop|
    requires forall i :: 0 <= i < |loop| - 1 ==> RingStep(mem, layout, MainAddress(layout, libc), loop, i)
    requires NextWord(mem, layout, loop[|loop| - 1]) == Some(loop[back])
    ensures ListArenas(mem, layout, libc).value.1 != []
  {
    hide RingLinks, NextWord, ListArenas, MainAddress;
    var main := MainAddress(layout, libc);
    var links := RingLinks(mem, layout, main);
    LinksAreWords(mem, layout, main);
    forall i | 0 <= i < |loop| - 1
      ensures links(loop[i]) == To(loop[i + 1])
    {
      assert RingStep(mem, layout, main, loop, i);
    }
    assert RingStep(mem, layout, main, loop, back - 1);
    LoopingPathNeverStops(links, main, loop, MAX_ARENAS - 1, End);
    RingPathDecides(mem, layout, libc);
    if ListArenas(mem, layout, libc).value.1 == [] {
      var path :| RingPath(mem, layout, main, path) && |path| < MAX_ARENAS;
      RingPathReaches(mem, layout, main, path);
    }
  }

  lemma RingPathReaches(mem: Mem, layout: Layout, main: U64, path: seq<U64>)
    requires RingPath(mem, layout, main, path) && |path| < MAX_ARENAS
    ensures Reaches(RingLinks(mem, layout, main), main, MAX_ARENAS - 1, End)
  {
    hide RingLinks, NextWord;
    var links := RingLinks(mem, layout, main);
    LinksAreWords(mem, layout, main);
    forall i | 0 <= i < |path| - 1
      ensures links(path[i]) == To(path[i + 1])
    {
      assert RingStep(mem, layout, main, path, i);
    }
    assert IsPath(links, main, path) && links(path[|path| - 1]) == End;
  }
}
