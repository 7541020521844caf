/** Laying out chunk lists in memory, and walking them back. */
module WalkRoundTrip {
  import opened Words
  import opened Memory
  import opened ChunkBits
  import opened ChunkWalk

  /**
   * `headers` are the raw size fields of a list of chunks starting at `start`, and of what follows them
   * at `stop`: the top chunk, or the bridge that closes an intermediate heap.
   */
  predicate ValidHeaders(start: int, headers: seq<U64>, stop: U64)
    decreases |headers|
  {
    && |headers| > 0
    && 0 <= start <= stop
    && if |headers| == 1 then start == stop
       else
         && ChunkSize(headers[0]) >= 2 * WORD
         && ChunkSize(headers[0]) % ALIGNMENT == 0
         && ValidHeaders(start + ChunkSize(headers[0]), headers[1..], stop)
  }

  /** Memory holds each size field where the sizes before it put it. */
  ghost predicate Holds(mem: Mem, start: int, headers: seq<U64>)
    decreases |headers|
  {
    headers != [] ==>
      && 0 <= start < TWO64
      && mem.Read(start) == Some(headers[0])
      && Holds(mem, start + ChunkSize(headers[0]), headers[1..])
  }

  /**
   * The sentinel test leaves the last chunk of the list alone: it is flagged, or what follows it does not end
   * at the last word of the region.
   */
  predicate LastStays(headers: seq<U64>, stop: U64, end: U64, main: bool) {
    |headers| > 1 ==>
      main || NonMainArena(headers[|headers| - 2]) || stop + ChunkSize(headers[|headers| - 1]) + WORD != end
  }

  /** The chunks of the list, each in use if its successor's PREV_INUSE bit says so. */
  function ListedChunks(start: U64, headers: seq<U64>, stop: U64): (events: seq<ChunkEvent>)
    requires ValidHeaders(start, headers, stop)
    ensures |events| == |headers| - 1
    decreases |headers|
  {
    if |headers| == 1 then []
    else
      var size := ChunkSize(headers[0]);
      assert ValidHeaders(start + size, headers[1..], stop);
      [ChunkEvent(start, start + WORD, size - HEADER_SIZE, size, PrevInUse(headers[1]))]
      + ListedChunks(start + size, headers[1..], stop)
  }

  /** Boundaries before the last lie at least a minimal chunk before it, so no other chunk is taken for a bridge. */
  lemma {:induction false} ListIsCuts(
      mem: Mem, start: U64, headers: seq<U64>, stop: U64, end: U64, main: bool)
    returns (cuts: seq<U64>)
    requires ValidHeaders(start, headers, stop) && Holds(mem, start, headers)
    requires stop == end || stop + 3 * WORD <= end
    requires LastStays(headers, stop, end, main)
    ensures Cuts(mem, end, main, cuts) && EventsOf(mem, end, main, cuts) == ListedChunks(start, headers, stop)
    ensures |cuts| == |headers| && cuts[0] == start && cuts[|cuts| - 1] == stop
    decreases |headers|
  {
    hide ChunkSize, NonMainArena, PrevInUse;
    cuts := [start];
    if |headers| > 1 {
      var next := start + ChunkSize(headers[0]);
      assert ValidHeaders(next, headers[1..], stop) && Holds(mem, next, headers[1..]);
      assert mem.Read(next) == Some(headers[1..][0]);
      NoBridge(mem, start, headers, stop, end, main);
      var rest := ListIsCuts(mem, next, headers[1..], stop, end, main);
      cuts := cuts + rest;
      assert cuts[1..] == rest;
    }
  }

  lemma NoBridge(mem: Mem, start: U64, headers: seq<U64>, stop: U64, end: U64, main: bool)
    requires ValidHeaders(start, headers, stop) && |headers| > 1
    requires stop == end || stop + 3 * WORD <= end
    requires LastStays(headers, stop, end, main)
    ensures start + ChunkSize(headers[0]) <= stop
    ensures !ClosesHeap(mem, end, main, headers[0], start + ChunkSize(headers[0]), headers[1])
  {
    hide ChunkSize, NonMainArena;
    var next := start + ChunkSize(headers[0]);
    assert ValidHeaders(next, headers[1..], stop);
    if |headers| > 2 {
      assert headers[1..][0] == headers[1] && headers[1..][1..] == headers[2..];
      assert ValidHeaders(next + ChunkSize(headers[1]), headers[2..], stop);
      if |headers| > 3 {
        assert ValidHeaders(next + ChunkSize(headers[1]) + ChunkSize(headers[2]), headers[2..][1..], stop);
      }
    }
  }

  /**
   * A main region, or the last heap of a secondary arena, whatever its flags: the walk gives back the list,
   * without a problem, exactly when there are no more chunks than it steps over.
   */
  lemma RegionRoundTrip(mem: Mem, arena: U32, start: U64, headers: seq<U64>, end: U64, main: bool)
    requires ValidHeaders(start, headers, end) && Holds(mem, start, headers)
    ensures Walk(mem, arena, start, end, main) == (ListedChunks(start, headers, end), [])
       <==> |headers| - 1 <= 10_000_000
  {
    EventsTile(mem, arena, start, end, main);
    var cuts := ListIsCuts(mem, start, headers, end, end, main);
    if |headers| > 1 {
      assert ValidHeaders(start + ChunkSize(headers[0]), headers[1..], end);
      WalkDecides(mem, arena, start, end, main);
      assert Tiles(mem, start, end, main, cuts);
    }
  }

  /**
   * An intermediate heap: chunks, then an unflagged bridge at `stop`, a fence after it, and a bare PREV_INUSE in
   * the last word of the region. The walk gives back the list without the bridge, and without a problem, exactly
   * when bridge and chunks are within the cap and the last chunk is not itself taken for the bridge: the fence
   * has a size, or the last chunk is flagged.
   */
  lemma BridgedHeapRoundTrip(mem: Mem, arena: U32, start: U64, headers: seq<U64>, stop: U64, fence: U64, end: U64)
    requires ValidHeaders(start, headers, stop) && Holds(mem, start, headers)
    requires var bridge := headers[|headers| - 1];
             && !NonMainArena(bridge)
             && ChunkSize(bridge) >= 2 * WORD && ChunkSize(bridge) % ALIGNMENT == 0
             && stop + ChunkSize(bridge) + ChunkSize(fence) + WORD == end
             && mem.Read(stop + ChunkSize(bridge)) == Some(fence)
             && mem.Read(end - WORD) == Some(PREV_INUSE)
    ensures Walk(mem, arena, start, end, false) == (ListedChunks(start, headers, stop), [])
       <==> && |headers| <= 10_000_000
            && (ChunkSize(fence) > 0 || |headers| == 1 || NonMainArena(headers[|headers| - 2]))
  {
    hide ChunkSize, NonMainArena, PrevInUse, Walk;
    HoldsLast(mem, start, headers, stop);
    var next := stop + ChunkSize(headers[|headers| - 1]);
    assert SoundChunk(mem, end, stop, next) && IsBridge(mem, end, false, stop, next);
    assert start <= stop;
    WalkDecides(mem, arena, start, end, false);
    if LastStays(headers, stop, end, false) {
      var cuts := ListIsCuts(mem, start, headers, stop, end, false);
      assert Tiles(mem, start, end, false, cuts);
      if Walk(mem, arena, start, end, false) == (ListedChunks(start, headers, stop), []) {
        ListIsWithinCap(mem, arena, start, headers, stop, end);
      }
    } else if Walk(mem, arena, start, end, false) == (ListedChunks(start, headers, stop), []) {
      LastIsBridge(mem, arena, start, headers, stop, end);
    }
  }

  /** A silent walk that stops before the region's end has stepped over a bridge too. */
  lemma ListIsWithinCap(mem: Mem, arena: U32, start: U64, headers: seq<U64>, stop: U64, end: U64)
    requires ValidHeaders(start, headers, stop) && start <= stop < end
    requires Walk(mem, arena, start, end, false) == (ListedChunks(start, headers, stop), [])
    ensures |headers| <= MAX_CHUNKS
  {
    hide ChunkSize, NonMainArena, PrevInUse, ClosesHeap;
    WalkDecides(mem, arena, start, end, false);
    var cuts :| Tiles(mem, start, end, false, cuts) && Steps(end, cuts) <= MAX_CHUNKS;
    CutsAreContiguous(mem, end, false, cuts);
    EndOfList(start, headers, stop);
  }

  lemma {:induction false} EndOfList(start: U64, headers: seq<U64>, stop: U64)
    requires ValidHeaders(start, headers, stop)
    ensures EndOf(start, ListedChunks(start, headers, stop)) == stop
    ensures |headers| > 1 ==>
              var last := ListedChunks(start, headers, stop)[|headers| - 2];
              && last.sizeFieldAddr + last.fullSize == stop
              && last.fullSize == ChunkSize(headers[|headers| - 2])
    decreases |headers|
  {
    hide ChunkSize, PrevInUse;
    if |headers| > 1 {
      var size := ChunkSize(headers[0]);
      assert ValidHeaders(start + size, headers[1..], stop);
      EndOfList(start + size, headers[1..], stop);
      var rest := ListedChunks(start + size, headers[1..], stop);
      assert ListedChunks(start, headers, stop)[1..] == rest;
      assert |headers| > 2 ==> ListedChunks(start, headers, stop)[|headers| - 2] == rest[|headers| - 3];
    }
  }

  /** An unflagged last chunk before a bridge that ends at the region's last word is taken for the bridge. */
  lemma LastIsBridge(mem: Mem, arena: U32, start: U64, headers: seq<U64>, stop: U64, end: U64)
    requires ValidHeaders(start, headers, stop) && Holds(mem, start, headers) && start <= stop < end
    requires |headers| > 1 && !NonMainArena(headers[|headers| - 2])
    requires stop + ChunkSize(headers[|headers| - 1]) + WORD == end
    requires mem.Read(end - WORD) == Some(PREV_INUSE)
    ensures Walk(mem, arena, start, end, false).0 != ListedChunks(start, headers, stop)
  {
    hide ChunkSize, PrevInUse, NonMainArena, Walk, Holds, ValidHeaders, ListedChunks, EventsOf;
    var n := |headers| - 2;
    EndOfList(start, headers, stop);
    HoldsLast(mem, start, headers, stop);
    HoldsFirst(mem, start, headers);
    HoldsAt(mem, start, headers, stop);
    WalkDecides(mem, arena, start, end, false);
    var cuts :| Cuts(mem, end, false, cuts) && cuts[0] == start
                && Walk(mem, arena, start, end, false).0 == EventsOf(mem, end, false, cuts);
    if Walk(mem, arena, start, end, false).0 == ListedChunks(start, headers, stop) {
      EventsOfAt(mem, end, false, cuts, n);
    }
  }

  lemma HoldsFirst(mem: Mem, start: int, headers: seq<U64>)
    requires Holds(mem, start, headers) && headers != []
    ensures 0 <= start < TWO64 && mem.Read(start) == Some(headers[0])
  {
  }

  /** The last chunk of the list is where the list has it. */
  lemma {:induction false} HoldsAt(mem: Mem, start: U64, headers: seq<U64>, stop: U64)
    requires ValidHeaders(start, headers, stop) && Holds(mem, start, headers) && |headers| > 1
    ensures mem.Read(ListedChunks(start, headers, stop)[|headers| - 2].sizeFieldAddr) == Some(headers[|headers| - 2])
    decreases |headers|
  {
    hide ChunkSize, PrevInUse;
    if |headers| > 2 {
      var size := ChunkSize(headers[0]);
      assert ValidHeaders(start + size, headers[1..], stop) && Holds(mem, start + size, headers[1..]);
      HoldsAt(mem, start + size, headers[1..], stop);
      assert ListedChunks(start, headers, stop)[|headers| - 2]
          == ListedChunks(start + size, headers[1..], stop)[|headers| - 3];
    }
  }

  lemma {:induction false} HoldsLast(mem: Mem, start: int, headers: seq<U64>, stop: U64)
    requires ValidHeaders(start, headers, stop) && Holds(mem, start, headers)
    ensures mem.Read(stop) == Some(headers[|headers| - 1])
    decreases |headers|
  {
    if |headers| > 1 {
      HoldsLast(mem, start + ChunkSize(headers[0]), headers[1..], stop);
    }
  }
}
