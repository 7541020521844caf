/** The linear walk over the chunks of one heap region. */
module ChunkWalk {
  import opened Words
  import opened Memory
  import opened ChunkBits

  const MAX_CHUNKS: nat := 10_000_000

  datatype ChunkEvent = ChunkEvent(
    sizeFieldAddr: U64, userAddr: U64, userSize: U64, fullSize: U64, prevInuseSaysInUse: bool)

  /** A well-formed size field at `at`, whose chunk ends at `next`, inside the region and readable. */
  predicate SoundChunk(mem: Mem, end: U64, at: U64, next: U64) {
    && mem.Read(at).Some?
    && var size := ChunkSize(mem.Read(at).value);
       && size >= 2 * WORD
       && size % ALIGNMENT == 0
       && next == at + size
       && next <= end
       && mem.Read(next).Some?
  }

  /** The sentinel test: an unflagged chunk whose successor ends at a bare PREV_INUSE word closing the region. */
  predicate ClosesHeap(mem: Mem, end: U64, main: bool, header: U64, next: U64, nextHeader: U64) {
    && !main
    && !NonMainArena(header)
    && match CheckedAdd(next, ChunkSize(nextHeader))
       case None => false
       case Some(sentinel) =>
         CheckedAdd(sentinel, WORD) == Some(end) && mem.Read(sentinel) == Some(PREV_INUSE)
  }

  /** The chunk at `at` is the fake top that bridges a non-main heap to the next one. */
  predicate IsBridge(mem: Mem, end: U64, main: bool, at: U64, next: U64)
    requires SoundChunk(mem, end, at, next)
  {
    ClosesHeap(mem, end, main, mem.Read(at).value, next, mem.Read(next).value)
  }

  function EventAt(mem: Mem, at: U64, next: U64): ChunkEvent
    requires mem.Read(next).Some? && at + HEADER_SIZE <= next
  {
    ChunkEvent(at, at + WORD, next - at - HEADER_SIZE, next - at, PrevInUse(mem.Read(next).value))
  }

  /** Why the walk stops at `cursor`, if it does, and what it reports then. */
  function Halt(mem: Mem, arena: U32, end: U64, main: bool, cursor: U64, seen: nat): (stop: Option<seq<Problem>>)
    requires cursor <= end && mem.Read(cursor).Some?
    ensures stop.None? ==>
              var next := cursor + ChunkSize(mem.Read(cursor).value);
              next < TWO64 && SoundChunk(mem, end, cursor, next)
  {
    var size := ChunkSize(mem.Read(cursor).value);
    var next := cursor + size;
    if cursor == end then Some([])
    else if seen >= MAX_CHUNKS then Some([HeapWalkTruncated(arena, ChunkCapExceeded)])
    else if size < 2 * WORD then Some([HeapWalkTruncated(arena, BelowMinimum)])
    else if size % ALIGNMENT != 0 then Some([HeapWalkTruncated(arena, NotAligned)])
    else if next >= TWO64 then Some([HeapWalkTruncated(arena, AddressOverflow)])
    else if next > end then Some([HeapWalkTruncated(arena, PastRegionEnd)])
    else if mem.Read(next).None? then Some([ChunkReadFailed(arena, next)])
    else if IsBridge(mem, end, main, cursor, next) then Some([])
    else None
  }

  function Scan(mem: Mem, arena: U32, end: U64, main: bool, cursor: U64, seen: nat): (seq<ChunkEvent>, seq<Problem>)
    requires cursor <= end && mem.Read(cursor).Some?
    decreases end - cursor
  {
    match Halt(mem, arena, end, main, cursor, seen)
    case Some(problems) => ([], problems)
    case None =>
      var next := cursor + ChunkSize(mem.Read(cursor).value);
      var (events, problems) := Scan(mem, arena, end, main, next, seen + 1);
      ([EventAt(mem, cursor, next)] + events, problems)
  }

  lemma ScanFromHalt(mem: Mem, arena: U32, end: U64, main: bool, cursor: U64, seen: nat)
    requires cursor <= end && mem.Read(cursor).Some?
    ensures match Halt(mem, arena, end, main, cursor, seen)
            case Some(problems) => Scan(mem, arena, end, main, cursor, seen) == ([], problems)
            case None =>
              var next := cursor + ChunkSize(mem.Read(cursor).value);
              var rest := Scan(mem, arena, end, main, next, seen + 1);
              Scan(mem, arena, end, main, cursor, seen) == ([EventAt(mem, cursor, next)] + rest.0, rest.1)
  {
  }

  lemma ScanAtEnd(mem: Mem, arena: U32, end: U64, main: bool, seen: nat)
    requires mem.Read(end).Some?
    ensures Scan(mem, arena, end, main, end, seen) == ([], [])
  {
  }

  lemma Regroup(events: seq<ChunkEvent>, e: ChunkEvent, rest: seq<ChunkEvent>)
    ensures events + ([e] + rest) == (events + [e]) + rest
  {
  }

  function Walk(mem: Mem, arena: U32, start: U64, end: U64, main: bool): (seq<ChunkEvent>, seq<Problem>) {
    if start > end then ([], [HeapWalkTruncated(arena, StartAfterEnd)])
    else if start == end then ([], [])
    else if mem.Read(start).None? then ([], [ChunkReadFailed(arena, start)])
    else Scan(mem, arena, end, main, start, 0)
  }

  method WalkRegion(mem: Mem, arena: U32, regionStart: U64, regionEnd: U64, isMainArena: bool)
    returns (events: seq<ChunkEvent>, problems: seq<Problem>)
    ensures events == Walk(mem, arena, regionStart, regionEnd, isMainArena).0
    ensures problems == Walk(mem, arena, regionStart, regionEnd, isMainArena).1
  {
    hide ChunkSize, PrevInUse, NonMainArena, ClosesHeap, Scan;
    events, problems := [], [];
    if regionStart > regionEnd {
      problems := [HeapWalkTruncated(arena, StartAfterEnd)];
      return;
    }
    if regionStart == regionEnd {
      return;
    }
    var nextHeaderAddress := regionStart;
    if mem.Read(nextHeaderAddress).None? {
      problems := [ChunkReadFailed(arena, nextHeaderAddress)];
      return;
    }
    var nextHeader := mem.Read(nextHeaderAddress).value;
    var seen := 0;
    ghost var goal := Scan(mem, arena, regionEnd, isMainArena, regionStart, 0);
    while nextHeaderAddress != regionEnd
      invariant nextHeaderAddress <= regionEnd && mem.Read(nextHeaderAddress) == Some(nextHeader)
      invariant problems == [] && seen <= MAX_CHUNKS
      invariant var (rest, p) := Scan(mem, arena, regionEnd, isMainArena, nextHeaderAddress, seen);
                goal.0 == events + rest && goal.1 == p
      invariant nextHeaderAddress == regionEnd ==> goal == (events, [])
      decreases regionEnd - nextHeaderAddress
    {
      ScanFromHalt(mem, arena, regionEnd, isMainArena, nextHeaderAddress, seen);
      assert events + [] == events;
      seen := seen + 1;
      if seen > MAX_CHUNKS {
        problems := [HeapWalkTruncated(arena, ChunkCapExceeded)];
        break;
      }
      var sizeFieldAddr := nextHeaderAddress;
      var currentHeader := nextHeader;
      var fullSize := ChunkSize(currentHeader);
      if fullSize < 2 * WORD {
        problems := [HeapWalkTruncated(arena, BelowMinimum)];
        break;
      }
      if fullSize % ALIGNMENT != 0 {
        problems := [HeapWalkTruncated(arena, NotAligned)];
        break;
      }
      var nextCursor := CheckedAdd(sizeFieldAddr, fullSize);
      if nextCursor.None? {
        problems := [HeapWalkTruncated(arena, AddressOverflow)];
        break;
      }
      if nextCursor.value > regionEnd {
        problems := [HeapWalkTruncated(arena, PastRegionEnd)];
        break;
      }
      nextHeaderAddress := nextCursor.value;
      if mem.Read(nextHeaderAddress).None? {
        problems := [ChunkReadFailed(arena, nextHeaderAddress)];
        break;
      }
      nextHeader := mem.Read(nextHeaderAddress).value;
      if ClosesHeap(mem, regionEnd, isMainArena, currentHeader, nextHeaderAddress, nextHeader) {
        break;
      }
      var event := ChunkEvent(sizeFieldAddr, sizeFieldAddr + WORD, fullSize - HEADER_SIZE, fullSize,
                              PrevInUse(nextHeader));
      Regroup(events, event, Scan(mem, arena, regionEnd, isMainArena, nextHeaderAddress, seen).0);
      events := events + [event];
      if nextHeaderAddress == regionEnd {
        ScanAtEnd(mem, arena, regionEnd, isMainArena, seen);
        assert events + [] == events;
      }
    }
  }

  // ----- What the walk decides -----

  /** `cuts` are chunk boundaries: each one but the last starts a sound chunk ending at the next, no bridge. */
  ghost predicate Cuts(mem: Mem, end: U64, main: bool, cuts: seq<U64>) {
    && |cuts| > 0
    && (|cuts| > 1 ==>
          && SoundChunk(mem, end, cuts[0], cuts[1])
          && !IsBridge(mem, end, main, cuts[0], cuts[1])
          && Cuts(mem, end, main, cuts[1..]))
  }

  ghost predicate BridgeAt(mem: Mem, end: U64, main: bool, at: U64) {
    exists next :: SoundChunk(mem, end, at, next) && IsBridge(mem, end, main, at, next)
  }

  /** The boundaries tile the region, or tile it up to the bridge of a non-main heap. */
  ghost predicate Tiles(mem: Mem, start: U64, end: U64, main: bool, cuts: seq<U64>) {
    && Cuts(mem, end, main, cuts)
    && cuts[0] == start
    && (cuts[|cuts| - 1] == end || BridgeAt(mem, end, main, cuts[|cuts| - 1]))
  }

  /** How many chunks the walk steps over: those between boundaries, and a bridge at the end. */
  ghost function Steps(end: U64, cuts: seq<U64>): int
    requires |cuts| > 0
  {
    |cuts| - if cuts[|cuts| - 1] == end then 1 else 0
  }

  ghost function EventsOf(mem: Mem, end: U64, main: bool, cuts: seq<U64>): (events: seq<ChunkEvent>)
    requires Cuts(mem, end, main, cuts)
    ensures |events| == |cuts| - 1
  {
    if |cuts| == 1 then [] else [EventAt(mem, cuts[0], cuts[1])] + EventsOf(mem, end, main, cuts[1..])
  }

  lemma {:induction false} EventsOfAt(mem: Mem, end: U64, main: bool, cuts: seq<U64>, i: nat)
    requires Cuts(mem, end, main, cuts) && i < |cuts| - 1
    ensures SoundChunk(mem, end, cuts[i], cuts[i + 1]) && !IsBridge(mem, end, main, cuts[i], cuts[i + 1])
    ensures EventsOf(mem, end, main, cuts)[i] == EventAt(mem, cuts[i], cuts[i + 1])
  {
    if i > 0 {
      EventsOfAt(mem, end, main, cuts[1..], i - 1);
    }
  }

  lemma {:induction false} CutsEverywhere(mem: Mem, end: U64, main: bool, cuts: seq<U64>)
    requires |cuts| > 0
    requires forall i :: 0 <= i < |cuts| - 1 ==>
               SoundChunk(mem, end, cuts[i], cuts[i + 1]) && !IsBridge(mem, end, main, cuts[i], cuts[i + 1])
    ensures Cuts(mem, end, main, cuts)
  {
    if |cuts| > 1 {
      var rest := cuts[1..];
      forall i | 0 <= i < |rest| - 1
        ensures SoundChunk(mem, end, rest[i], rest[i + 1]) && !IsBridge(mem, end, main, rest[i], rest[i + 1])
      {
        assert rest[i] == cuts[i + 1] && rest[i + 1] == cuts[i + 1 + 1];
      }
      CutsEverywhere(mem, end, main, rest);
      assert SoundChunk(mem, end, cuts[0], cuts[0 + 1]);
    }
  }

  /** The walk emits an event exactly at a sound chunk that is no bridge, and goes on at its end. */
  lemma ScanStep(mem: Mem, arena: U32, end: U64, main: bool, cursor: U64, seen: nat)
    requires cursor <= end && mem.Read(cursor).Some?
    ensures var (events, problems) := Scan(mem, arena, end, main, cursor, seen);
            var next := cursor + ChunkSize(mem.Read(cursor).value);
            if cursor < end && seen < MAX_CHUNKS && next < TWO64 && SoundChunk(mem, end, cursor, next)
               && !IsBridge(mem, end, main, cursor, next)
            then
              && events == [EventAt(mem, cursor, next)] + Scan(mem, arena, end, main, next, seen + 1).0
              && problems == Scan(mem, arena, end, main, next, seen + 1).1
            else
              && events == []
              && |problems| <= 1
              && (problems == [] <==>
                  cursor == end || (seen < MAX_CHUNKS && next < TWO64 && SoundChunk(mem, end, cursor, next)))
  {
  }

  /** Whatever memory holds, the events are sound, contiguous chunks from `cursor`, and silence means a tiling. */
  lemma {:induction false} ScanEmitsCuts(mem: Mem, arena: U32, end: U64, main: bool, cursor: U64, seen: nat)
    returns (cuts: seq<U64>)
    requires cursor <= end && mem.Read(cursor).Some? && seen <= MAX_CHUNKS
    ensures Cuts(mem, end, main, cuts) && cuts[0] == cursor
    ensures var (events, problems) := Scan(mem, arena, end, main, cursor, seen);
            && events == EventsOf(mem, end, main, cuts)
            && seen + |events| <= MAX_CHUNKS
            && |problems| <= 1
            && (problems == [] ==> Tiles(mem, cursor, end, main, cuts) && seen + Steps(end, cuts) <= MAX_CHUNKS)
    decreases end - cursor
  {
    hide ChunkSize, ClosesHeap, Scan;
    ScanStep(mem, arena, end, main, cursor, seen);
    cuts := [cursor];
    var next := cursor + ChunkSize(mem.Read(cursor).value);
    if cursor < end && seen < MAX_CHUNKS && next < TWO64 && SoundChunk(mem, end, cursor, next) {
      if IsBridge(mem, end, main, cursor, next) {
        assert BridgeAt(mem, end, main, cursor);
      } else {
        var rest := ScanEmitsCuts(mem, arena, end, main, next, seen + 1);
        cuts := cuts + rest;
        assert cuts[1..] == rest;
      }
    }
  }

  /** A tiling within the chunk cap is exactly what the walk follows. */
  lemma {:induction false} ScanTakesTiling(mem: Mem, arena: U32, end: U64, main: bool, cuts: seq<U64>, seen: nat)
    requires |cuts| > 0 && Tiles(mem, cuts[0], end, main, cuts) && seen + Steps(end, cuts) <= MAX_CHUNKS
    requires cuts[0] <= end && mem.Read(cuts[0]).Some?
    ensures Scan(mem, arena, end, main, cuts[0], seen) == (EventsOf(mem, end, main, cuts), [])
    decreases |cuts|
  {
    hide ChunkSize, ClosesHeap, Scan;
    ScanStep(mem, arena, end, main, cuts[0], seen);
    if |cuts| > 1 {
      ScanTakesTiling(mem, arena, end, main, cuts[1..], seen + 1);
    } else if cuts[0] != end {
      var next :| SoundChunk(mem, end, cuts[0], next) && IsBridge(mem, end, main, cuts[0], next);
    }
  }

  /** The walk is silent exactly when the region is empty or tiled, and then emits exactly the tiling. */
  lemma WalkDecides(mem: Mem, arena: U32, start: U64, end: U64, main: bool)
    ensures var (events, problems) := Walk(mem, arena, start, end, main);
            && |problems| <= 1
            && (problems == [] <==>
                start == end ||
                (start < end && exists cuts :: Tiles(mem, start, end, main, cuts) && Steps(end, cuts) <= MAX_CHUNKS))
            && (start < end ==>
                forall cuts :: Tiles(mem, start, end, main, cuts) && Steps(end, cuts) <= MAX_CHUNKS ==>
                  events == EventsOf(mem, end, main, cuts))
            && (start < end && mem.Read(start).Some? ==>
                exists cuts :: Cuts(mem, end, main, cuts) && cuts[0] == start && events == EventsOf(mem, end, main, cuts))
  {
    if start < end {
      forall cuts | Tiles(mem, start, end, main, cuts) && Steps(end, cuts) <= MAX_CHUNKS
        ensures mem.Read(start).Some?
        ensures Walk(mem, arena, start, end, main) == (EventsOf(mem, end, main, cuts), [])
      {
        ScanTakesTiling(mem, arena, end, main, cuts, 0);
      }
      if mem.Read(start).Some? {
        var cuts := ScanEmitsCuts(mem, arena, end, main, start, 0);
        assert Cuts(mem, end, main, cuts);
      }
    }
  }

  /** An event whose payload, size and addresses fit the size field it was read from, inside the region. */
  ghost predicate SoundEvent(mem: Mem, end: U64, e: ChunkEvent) {
    && e.userAddr == e.sizeFieldAddr + WORD
    && e.userSize + HEADER_SIZE == e.fullSize
    && 2 * WORD <= e.fullSize && e.fullSize % ALIGNMENT == 0
    && e.sizeFieldAddr + e.fullSize <= end
    && mem.Read(e.sizeFieldAddr).Some? && ChunkSize(mem.Read(e.sizeFieldAddr).value) == e.fullSize
  }

  /** The events start at `start`, are sound, and each starts where the one before ends. */
  ghost predicate Contiguous(mem: Mem, start: int, end: U64, events: seq<ChunkEvent>)
    decreases |events|
  {
    events != [] ==>
      && events[0].sizeFieldAddr == start
      && SoundEvent(mem, end, events[0])
      && Contiguous(mem, start + events[0].fullSize, end, events[1..])
  }

  /** Where the last event ends. */
  ghost function EndOf(start: int, events: seq<ChunkEvent>): int
    decreases |events|
  {
    if events == [] then start else EndOf(start + events[0].fullSize, events[1..])
  }

  /** Whatever memory holds, the events are contiguous from the region's start and stay inside it. */
  lemma EventsTile(mem: Mem, arena: U32, start: U64, end: U64, main: bool)
    ensures var (events, problems) := Walk(mem, arena, start, end, main);
            && |events| <= MAX_CHUNKS
            && |problems| <= 1
            && Contiguous(mem, start, end, events)
            && (problems == [] ==>
                EndOf(start, events) == end ||
                (!main && 0 <= EndOf(start, events) < TWO64 && BridgeAt(mem, end, main, EndOf(start, events))))
  {
    if start < end && mem.Read(start).Some? {
      var cuts := ScanEmitsCuts(mem, arena, end, main, start, 0);
      CutsAreContiguous(mem, end, main, cuts);
    }
  }

  /** Why the walk over [start, end) stops where its `n` events end, at `at`, and what it reports then. */
  predicate StopsBecause(
      mem: Mem, arena: U32, start: U64, end: U64, main: bool, at: int, n: nat, problems: seq<Problem>)
  {
    if start > end then problems == [HeapWalkTruncated(arena, StartAfterEnd)]
    else if at == end then problems == []
    else if n == 0 && mem.Read(start) == None then problems == [ChunkReadFailed(arena, start)]
    else if n == 10_000_000 then problems == [HeapWalkTruncated(arena, ChunkCapExceeded)]
    else
      && 0 <= at < TWO64 && mem.Read(at).Some?
      && var size := ChunkSize(mem.Read(at).value);
         if size < 16 then problems == [HeapWalkTruncated(arena, BelowMinimum)]
         else if size % 16 != 0 then problems == [HeapWalkTruncated(arena, NotAligned)]
         else if at + size >= TWO64 then problems == [HeapWalkTruncated(arena, AddressOverflow)]
         else if at + size > end then problems == [HeapWalkTruncated(arena, PastRegionEnd)]
         else if mem.Read(at + size) == None then problems == [ChunkReadFailed(arena, at + size)]
         else
           problems == [] && ClosesHeap(mem, end, main, mem.Read(at).value, at + size, mem.Read(at + size).value)
  }

  lemma {:induction false} ScanStops(mem: Mem, arena: U32, end: U64, main: bool, cursor: U64, seen: nat)
    requires cursor <= end && mem.Read(cursor).Some? && seen <= MAX_CHUNKS
    ensures var (events, problems) := Scan(mem, arena, end, main, cursor, seen);
            var at := EndOf(cursor, events);
            && seen + |events| <= MAX_CHUNKS
            && cursor <= at <= end && mem.Read(at).Some?
            && (at == end ==> problems == [])
            && (at < end && seen + |events| == MAX_CHUNKS ==>
                  problems == [HeapWalkTruncated(arena, ChunkCapExceeded)])
            && (at < end && seen + |events| < MAX_CHUNKS ==>
                  Halt(mem, arena, end, main, at, seen + |events|) == Some(problems))
    decreases end - cursor
  {
    hide ChunkSize, ClosesHeap, IsBridge, PrevInUse, Scan;
    ScanFromHalt(mem, arena, end, main, cursor, seen);
    if Halt(mem, arena, end, main, cursor, seen).None? {
      var next := cursor + ChunkSize(mem.Read(cursor).value);
      ScanStops(mem, arena, end, main, next, seen + 1);
      var rest := Scan(mem, arena, end, main, next, seen + 1).0;
      assert ([EventAt(mem, cursor, next)] + rest)[1..] == rest;
    }
  }

  /** Where every walk stops is explained by what is there. */
  lemma WalkStops(mem: Mem, arena: U32, start: U64, end: U64, main: bool)
    ensures var (events, problems) := Walk(mem, arena, start, end, main);
            StopsBecause(mem, arena, start, end, main, EndOf(start, events), |events|, problems)
  {
    hide ChunkSize, ClosesHeap, Scan, PrevInUse;
    if start < end && mem.Read(start).Some? {
      ScanStops(mem, arena, end, main, start, 0);
    }
  }

  lemma {:induction false} CutsAreContiguous(mem: Mem, end: U64, main: bool, cuts: seq<U64>)
    requires Cuts(mem, end, main, cuts)
    ensures Contiguous(mem, cuts[0], end, EventsOf(mem, end, main, cuts))
    ensures EndOf(cuts[0], EventsOf(mem, end, main, cuts)) == cuts[|cuts| - 1]
  {
    hide ChunkSize, ClosesHeap;
    if |cuts| > 1 {
      CutsAreContiguous(mem, end, main, cuts[1..]);
      var events := EventsOf(mem, end, main, cuts);
      assert events[0] == EventAt(mem, cuts[0], cuts[1]);
      assert events[1..] == EventsOf(mem, end, main, cuts[1..]);
    }
  }

  lemma {:induction false} UserAddressesIncrease(mem: Mem, start: int, end: U64, events: seq<ChunkEvent>, i: nat, j: nat)
    requires Contiguous(mem, start, end, events) && i < j < |events|
    ensures start + WORD <= events[i].userAddr
    ensures events[i].userAddr + 2 * WORD <= events[j].userAddr
    decreases j
  {
    if i > 0 {
      UserAddressesIncrease(mem, start + events[0].fullSize, end, events[1..], i - 1, j - 1);
    } else if j > 1 {
      UserAddressesIncrease(mem, start + events[0].fullSize, end, events[1..], 0, j - 1);
    }
  }

  // ----- Damage stays local -----

  ghost predicate AgreeUpTo(mem: Mem, mem': Mem, from: int, to: int) {
    forall a: U64 :: from <= a <= to ==> mem.Read(a) == mem'.Read(a)
  }

  /**
   * The sentinel test on the chunk of `e` depends on a word past `limit`: the last one of the region, which
   * the chunk after it ends at.
   */
  ghost predicate LooksPast(mem: Mem, end: U64, main: bool, limit: int, e: ChunkEvent) {
    var next := e.sizeFieldAddr + e.fullSize;
    && !main
    && next < TWO64
    && mem.Read(e.sizeFieldAddr).Some? && mem.Read(next).Some?
    && !NonMainArena(mem.Read(e.sizeFieldAddr).value)
    && next + ChunkSize(mem.Read(next).value) + WORD == end
    && limit < end - WORD
  }

  ghost predicate NoneLooksPast(mem: Mem, end: U64, main: bool, limit: int, events: seq<ChunkEvent>) {
    forall i :: 0 <= i < |events| ==> !LooksPast(mem, end, main, limit, events[i])
  }

  /** The walk over `mem'` starts with the same k events as the walk over `mem`. */
  ghost predicate SameStart(mem: Mem, mem': Mem, arena: U32, start: U64, end: U64, main: bool, k: nat) {
    var events, events' := Walk(mem, arena, start, end, main).0, Walk(mem', arena, start, end, main).0;
    k <= |events| && k <= |events'| && events'[..k] == events[..k]
  }

  /**
   * Damage beyond the size field after the first k events leaves those events as they are, whatever it is,
   * exactly when none of their sentinel tests looks past that size field. In the main arena none ever does.
   */
  lemma DamageIsLocal(mem: Mem, arena: U32, start: U64, end: U64, main: bool, k: nat)
    requires start < end
    requires 0 < k <= |Walk(mem, arena, start, end, main).0|
    ensures var before := Walk(mem, arena, start, end, main).0[..k];
            var limit := EndOf(start, before);
            (forall mem' :: AgreeUpTo(mem, mem', start, limit) ==> SameStart(mem, mem', arena, start, end, main, k))
            <==> NoneLooksPast(mem, end, main, limit, before)
    ensures main ==> NoneLooksPast(mem, end, main, EndOf(start, Walk(mem, arena, start, end, main).0[..k]),
                                   Walk(mem, arena, start, end, main).0[..k])
  {
    hide LooksPast;
    var events := Walk(mem, arena, start, end, main).0;
    var limit := EndOf(start, events[..k]);
    EventsTile(mem, arena, start, end, main);
    PrefixEnd(mem, start, end, events, k);
    forall mem' | AgreeUpTo(mem, mem', start, limit) && NoneLooksPast(mem, end, main, limit, events[..k])
      ensures SameStart(mem, mem', arena, start, end, main, k)
    {
      assert mem.Read(start) == mem'.Read(start);
      ScanDamageIsLocal(mem, mem', arena, end, main, start, 0, k, limit);
    }
    if !NoneLooksPast(mem, end, main, limit, events[..k]) {
      SomeLooksPast(mem, end, main, limit, events[..k]);
      assert AgreeUpTo(mem, Closed(mem, end), start, limit);
      assert mem.Read(start) == Closed(mem, end).Read(start);
      ScanSeesDamage(mem, arena, end, main, start, 0, k, limit);
      assert !SameStart(mem, Closed(mem, end), arena, start, end, main, k);
    }
    MainNeverLooksPast(mem, end, limit, events[..k]);
  }

  lemma MainNeverLooksPast(mem: Mem, end: U64, limit: int, events: seq<ChunkEvent>)
    ensures NoneLooksPast(mem, end, true, limit, events)
  {
  }

  lemma SomeLooksPast(mem: Mem, end: U64, main: bool, limit: int, events: seq<ChunkEvent>)
    requires !NoneLooksPast(mem, end, main, limit, events)
    ensures limit < end - WORD && WORD <= end
  {
    hide ChunkSize;
  }

  /** The same memory, but for a bare PREV_INUSE in the last word of the region. */
  function Closed(mem: Mem, end: U64): Mem {
    if end < WORD then mem else Mem(mem.words[end - WORD := PREV_INUSE], mem.segments)
  }

  lemma {:induction false} PrefixEnd(mem: Mem, start: int, end: U64, events: seq<ChunkEvent>, k: nat)
    requires Contiguous(mem, start, end, events) && k <= |events|
    ensures start <= EndOf(start, events[..k])
    decreases k
  {
    if k > 0 {
      assert events[..k][1..] == events[1..][..k - 1];
      PrefixEnd(mem, start + events[0].fullSize, end, events[1..], k - 1);
    }
  }

  lemma {:induction false} ScanDamageIsLocal(
      mem: Mem, mem': Mem, arena: U32, end: U64, main: bool, cursor: U64, seen: nat, k: nat, limit: int)
    requires cursor <= end && mem.Read(cursor).Some? && mem'.Read(cursor) == mem.Read(cursor) && seen <= MAX_CHUNKS
    requires var events := Scan(mem, arena, end, main, cursor, seen).0;
             && k <= |events|
             && EndOf(cursor, events[..k]) <= limit
             && AgreeUpTo(mem, mem', cursor, limit)
             && NoneLooksPast(mem, end, main, limit, events[..k])
    ensures var events, events' :=
              Scan(mem, arena, end, main, cursor, seen).0, Scan(mem', arena, end, main, cursor, seen).0;
            k <= |events'| && events'[..k] == events[..k]
    decreases k
  {
    hide ChunkSize, NonMainArena, PrevInUse, Scan, LooksPast, ClosesHeap, Cuts, Contiguous;
    if k > 0 {
      var next := FirstEvent(mem, arena, end, main, cursor, seen, k, limit);
      var before := Scan(mem, arena, end, main, cursor, seen).0[..k];
      assert !LooksPast(mem, end, main, limit, before[0]);
      StillNoBridge(mem, mem', end, main, cursor, next, limit);
      assert NoneLooksPast(mem, end, main, limit, before[1..]);
      ScanDamageIsLocal(mem, mem', arena, end, main, next, seen + 1, k - 1, limit);
      ScanStep(mem', arena, end, main, cursor, seen);
      var events' := Scan(mem', arena, end, main, cursor, seen).0;
      FirstAndRest(events'[0], Scan(mem', arena, end, main, next, seen + 1).0, k);
      assert before == [before[0]] + before[1..];
    }
  }

  lemma FirstAndRest(e: ChunkEvent, rest: seq<ChunkEvent>, k: nat)
    requires 0 < k <= |rest| + 1
    ensures ([e] + rest)[..k] == [e] + rest[..k - 1]
    ensures ([e] + rest)[..k][1..] == rest[..k - 1]
  {
  }

  /** The first event, the end of its chunk, and what remains. */
  lemma FirstEvent(mem: Mem, arena: U32, end: U64, main: bool, cursor: U64, seen: nat, k: nat, limit: int)
    returns (next: U64)
    requires cursor <= end && mem.Read(cursor).Some? && seen <= MAX_CHUNKS
    requires 0 < k <= |Scan(mem, arena, end, main, cursor, seen).0|
    requires EndOf(cursor, Scan(mem, arena, end, main, cursor, seen).0[..k]) <= limit
    ensures next == cursor + ChunkSize(mem.Read(cursor).value)
    ensures cursor < end && seen < MAX_CHUNKS && cursor < next <= limit
    ensures SoundChunk(mem, end, cursor, next) && !IsBridge(mem, end, main, cursor, next)
    ensures var events, rest := Scan(mem, arena, end, main, cursor, seen).0, Scan(mem, arena, end, main, next, seen + 1).0;
            && events[0] == EventAt(mem, cursor, next)
            && k - 1 <= |rest|
            && events[..k][1..] == rest[..k - 1]
            && EndOf(next, rest[..k - 1]) <= limit
  {
    hide ChunkSize, NonMainArena, PrevInUse, Scan, ClosesHeap;
    ScanStep(mem, arena, end, main, cursor, seen);
    next := cursor + ChunkSize(mem.Read(cursor).value);
    var rest := Scan(mem, arena, end, main, next, seen + 1).0;
    assert Scan(mem, arena, end, main, cursor, seen).0[..k][1..] == rest[..k - 1];
    var cuts := ScanEmitsCuts(mem, arena, end, main, next, seen + 1);
    CutsAreContiguous(mem, end, main, cuts);
    PrefixEnd(mem, next, end, rest, k - 1);
  }

  /** What agrees up to `limit` and is not looked past stays no bridge. */
  lemma StillNoBridge(mem: Mem, mem': Mem, end: U64, main: bool, cursor: U64, next: U64, limit: int)
    requires SoundChunk(mem, end, cursor, next) && cursor < next <= limit && AgreeUpTo(mem, mem', cursor, limit)
    requires !IsBridge(mem, end, main, cursor, next)
    requires !LooksPast(mem, end, main, limit, EventAt(mem, cursor, next))
    ensures SoundChunk(mem', end, cursor, next) && !IsBridge(mem', end, main, cursor, next)
    ensures EventAt(mem', cursor, next) == EventAt(mem, cursor, next)
  {
    hide ChunkSize, NonMainArena, PrevInUse;
    assert mem.Read(cursor) == mem'.Read(cursor) && mem.Read(next) == mem'.Read(next);
    var sentinel := next + ChunkSize(mem.Read(next).value);
    if sentinel <= limit && sentinel < TWO64 {
      assert mem.Read(sentinel) == mem'.Read(sentinel);
    }
  }

  /** An event that is looked past is lost once the region's last word is a bare PREV_INUSE. */
  lemma {:induction false} ScanSeesDamage(
      mem: Mem, arena: U32, end: U64, main: bool, cursor: U64, seen: nat, k: nat, limit: int)
    requires cursor <= end && mem.Read(cursor).Some? && seen <= MAX_CHUNKS
    requires limit < end - WORD && WORD <= end
    requires var events := Scan(mem, arena, end, main, cursor, seen).0;
             && k <= |events|
             && cursor <= EndOf(cursor, events[..k]) <= limit
             && !NoneLooksPast(mem, end, main, limit, events[..k])
    ensures Closed(mem, end).Read(cursor).Some?
    ensures var events, events' :=
              Scan(mem, arena, end, main, cursor, seen).0, Scan(Closed(mem, end), arena, end, main, cursor, seen).0;
            !(k <= |events'| && events'[..k] == events[..k])
    decreases k
  {
    hide ChunkSize, NonMainArena, PrevInUse, Scan, LooksPast, ClosesHeap, Cuts, Contiguous;
    var mem' := Closed(mem, end);
    var next := FirstEvent(mem, arena, end, main, cursor, seen, k, limit);
    var before := Scan(mem, arena, end, main, cursor, seen).0[..k];
    ScanStep(mem', arena, end, main, cursor, seen);
    assert mem'.Read(cursor) == mem.Read(cursor) && mem'.Read(next) == mem.Read(next);
    if LooksPast(mem, end, main, limit, before[0]) {
      BecomesBridge(mem, end, main, cursor, next, limit);
    } else {
      assert !NoneLooksPast(mem, end, main, limit, before[1..]) by {
        var i :| 0 <= i < |before| && LooksPast(mem, end, main, limit, before[i]);
        assert before[1..][i - 1] == before[i];
      }
      StartsNoLater(mem, arena, end, main, next, seen + 1, k - 1);
      ScanSeesDamage(mem, arena, end, main, next, seen + 1, k - 1, limit);
      var events' := Scan(mem', arena, end, main, cursor, seen).0;
      if events' != [] && k <= |events'| {
        FirstAndRest(events'[0], Scan(mem', arena, end, main, next, seen + 1).0, k);
      }
    }
  }

  lemma StartsNoLater(mem: Mem, arena: U32, end: U64, main: bool, cursor: U64, seen: nat, k: nat)
    requires cursor <= end && mem.Read(cursor).Some? && seen <= MAX_CHUNKS
    requires k <= |Scan(mem, arena, end, main, cursor, seen).0|
    ensures cursor <= EndOf(cursor, Scan(mem, arena, end, main, cursor, seen).0[..k])
  {
    hide Scan, Contiguous, Cuts;
    var cuts := ScanEmitsCuts(mem, arena, end, main, cursor, seen);
    CutsAreContiguous(mem, end, main, cuts);
    PrefixEnd(mem, cursor, end, Scan(mem, arena, end, main, cursor, seen).0, k);
  }

  lemma BecomesBridge(mem: Mem, end: U64, main: bool, cursor: U64, next: U64, limit: int)
    requires SoundChunk(mem, end, cursor, next) && cursor < next <= limit < end - WORD
    requires LooksPast(mem, end, main, limit, EventAt(mem, cursor, next))
    ensures SoundChunk(Closed(mem, end), end, cursor, next) && IsBridge(Closed(mem, end), end, main, cursor, next)
  {
    hide ChunkSize, NonMainArena, PrevInUse;
  }

  // ----- When locality is at stake -----

  /** No sentinel test on the chunks of a tiled region looks past anything: those it could end at are boundaries. */
  lemma {:induction false} TilesNeverLookPast(mem: Mem, end: U64, main: bool, cuts: seq<U64>, limit: int)
    requires |cuts| > 0 && Tiles(mem, cuts[0], end, main, cuts)
    ensures NoneLooksPast(mem, end, main, limit, EventsOf(mem, end, main, cuts))
    decreases |cuts|
  {
    hide ChunkSize, NonMainArena, PrevInUse, LooksPast, ClosesHeap;
    if |cuts| > 1 {
      var rest := cuts[1..];
      TilesNeverLookPast(mem, end, main, rest, limit);
      FirstNeverLooksPast(mem, end, main, cuts, limit);
      var events := EventsOf(mem, end, main, cuts);
      assert events[0] == EventAt(mem, cuts[0], cuts[1]);
      assert forall i :: 0 < i < |events| ==> events[i] == EventsOf(mem, end, main, rest)[i - 1];
    }
  }

  lemma FirstNeverLooksPast(mem: Mem, end: U64, main: bool, cuts: seq<U64>, limit: int)
    requires |cuts| > 1 && Tiles(mem, cuts[0], end, main, cuts)
    ensures SoundChunk(mem, end, cuts[0], cuts[1])
    ensures !LooksPast(mem, end, main, limit, EventAt(mem, cuts[0], cuts[1]))
  {
    hide ChunkSize, NonMainArena, PrevInUse;
    var at := cuts[|cuts| - 1];
    if at != end {
      var next :| SoundChunk(mem, end, at, next) && IsBridge(mem, end, main, at, next);
    }
    var rest := cuts[1..];
    assert Cuts(mem, end, main, rest);
    if |rest| > 1 {
      assert SoundChunk(mem, end, rest[0], rest[1]);
      StaysBehind(mem, end, main, rest[1..]);
    }
  }

  /** Every boundary but the last lies at least a minimal chunk before the last. */
  lemma {:induction false} StaysBehind(mem: Mem, end: U64, main: bool, cuts: seq<U64>)
    requires Cuts(mem, end, main, cuts)
    ensures cuts[0] == cuts[|cuts| - 1] || cuts[0] + 2 * WORD <= cuts[|cuts| - 1]
    decreases |cuts|
  {
    hide ChunkSize, ClosesHeap;
    if |cuts| > 1 {
      StaysBehind(mem, end, main, cuts[1..]);
    }
  }

  /**
   * In a heap that walks silently, of any arena, damage stays local: whatever comes to stand beyond the size
   * field after the first k chunks, the walk still gives these.
   */
  lemma SoundHeapsAreLocal(mem: Mem, mem': Mem, arena: U32, start: U64, end: U64, main: bool, k: nat)
    requires start < end && Walk(mem, arena, start, end, main).1 == []
    requires 0 < k <= |Walk(mem, arena, start, end, main).0|
    requires AgreeUpTo(mem, mem', start, EndOf(start, Walk(mem, arena, start, end, main).0[..k]))
    ensures SameStart(mem, mem', arena, start, end, main, k)
  {
    hide Walk, LooksPast;
    var events := Walk(mem, arena, start, end, main).0;
    WalkDecides(mem, arena, start, end, main);
    var cuts :| Tiles(mem, start, end, main, cuts) && Steps(end, cuts) <= MAX_CHUNKS;
    TilesNeverLookPast(mem, end, main, cuts, EndOf(start, events[..k]));
    DamageIsLocal(mem, arena, start, end, main, k);
  }

  /** A heap of a secondary arena that is damaged: its last word is no chunk boundary. */
  const Damaged: Mem := Mem(map[0x100 := 0x20, 0x120 := 0x21, 0x140 := 0x11], map[])

  /** In a heap already damaged, further damage can cost a chunk before it: here both chunks, from behind them. */
  lemma DamageCanCostAChunk(arena: U32)
    ensures Walk(Damaged, arena, 0x100, 0x148, false).0
         == [ChunkEvent(0x100, 0x108, 0x18, 0x20, true), ChunkEvent(0x120, 0x128, 0x18, 0x20, true)]
    ensures Walk(Damaged, arena, 0x100, 0x148, false).1 != []
    ensures AgreeUpTo(Damaged, Closed(Damaged, 0x148), 0x100, 0x120)
    ensures LooksPast(Damaged, 0x148, false, 0x120, ChunkEvent(0x100, 0x108, 0x18, 0x20, true))
    ensures Walk(Closed(Damaged, 0x148), arena, 0x100, 0x148, false).0 == []
  {
    hide Walk;
    DamagedWalk(arena);
    ClosedWalk(arena);
  }

  lemma DamagedWalk(arena: U32)
    ensures Walk(Damaged, arena, 0x100, 0x148, false).0
         == [ChunkEvent(0x100, 0x108, 0x18, 0x20, true), ChunkEvent(0x120, 0x128, 0x18, 0x20, true)]
    ensures Walk(Damaged, arena, 0x100, 0x148, false).1 == [HeapWalkTruncated(arena, PastRegionEnd)]
  {
    hide Scan;
    DamagedTail(arena);
    ScanFromHalt(Damaged, arena, 0x148, false, 0x100, 0);
  }

  lemma DamagedTail(arena: U32)
    ensures Scan(Damaged, arena, 0x148, false, 0x120, 1).0 == [ChunkEvent(0x120, 0x128, 0x18, 0x20, true)]
    ensures Scan(Damaged, arena, 0x148, false, 0x120, 1).1 == [HeapWalkTruncated(arena, PastRegionEnd)]
  {
    hide Scan;
    ScanFromHalt(Damaged, arena, 0x148, false, 0x140, 2);
    ScanFromHalt(Damaged, arena, 0x148, false, 0x120, 1);
  }

  lemma ClosedWalk(arena: U32)
    ensures Walk(Closed(Damaged, 0x148), arena, 0x100, 0x148, false) == ([], [])
  {
    hide Scan;
    ScanFromHalt(Closed(Damaged, 0x148), arena, 0x148, false, 0x100, 0);
  }
}
