/** Enumerating the heaps of an arena, and the region of each that holds chunks. */
module HeapList {
  import opened Words
  import opened Bits
  import opened Memory
  import opened Orbit
  import opened Arenas

  const MAX_HEAPS: nat := 10_000

  datatype Heap = Heap(address: U64, size: U64, mprotectSize: U64, regionStart: U64, regionEnd: U64)

  datatype HeapInfo = HeapInfo(size: U64, mprotectSize: U64, prev: U64)

  type Listing = Result<(seq<Heap>, seq<Problem>), Error>

  function SkipZeroPadding(mem: Mem, start: U64, end: U64): U64
    requires mem.TopWordUnmapped()
    decreases end - start
  {
    if start < end && mem.Read(start) == Some(0) then SkipZeroPadding(mem, start + WORD, end) else start
  }

  /** The scan stops at the first word below `end` that is not a readable zero, and skips only zeros. */
  lemma {:induction false} SkipsExactlyZeroWords(mem: Mem, start: U64, end: U64)
    requires mem.TopWordUnmapped()
    ensures var r := SkipZeroPadding(mem, start, end);
            && start <= r && (r - start) % WORD == 0
            && (r == start || r < end + WORD)
            && (r < end ==> mem.Read(r) != Some(0))
            && forall a :: start <= a < r && (a - start) % WORD == 0 ==> a < end && mem.Read(a) == Some(0)
    decreases end - start
  {
    if start < end && mem.Read(start) == Some(0) {
      SkipsExactlyZeroWords(mem, start + WORD, end);
      forall a | start <= a < SkipZeroPadding(mem, start, end) && (a - start) % WORD == 0
        ensures a < end && mem.Read(a) == Some(0)
      {
        if a != start {
          assert a >= start + WORD && (a - (start + WORD)) % WORD == 0;
        }
      }
    }
  }

  method SkipPadding(mem: Mem, from: U64, end: U64) returns (start: U64)
    requires mem.TopWordUnmapped()
    ensures start == SkipZeroPadding(mem, from, end)
  {
    start := from;
    while start < end
      invariant SkipZeroPadding(mem, start, end) == SkipZeroPadding(mem, from, end)
    {
      if mem.Read(start) != Some(0) {
        break;
      }
      start := WrappingAdd(start, WORD);
    }
  }

  /** Clears the low bits of an address, as `addr & !(heap_max_size - 1)` does. */
  function ToHeapStart(address: U64, heapMaxSize: U64): (r: U64)
    requires heapMaxSize > 0
    ensures r <= address
  {
    AndBounded(address, MAX_U64 - (heapMaxSize - 1));
    BitAnd(address, MAX_U64 - (heapMaxSize - 1))
  }

  lemma {:induction false} AndBounded(a: nat, b: nat)
    ensures BitAnd(a, b) <= a
  {
    if a != 0 {
      AndBounded(a / 2, b / 2);
    }
  }

  /** For a power of two, masking gives the start of the aligned block that holds the address. */
  lemma HeapStartIsBlock(address: U64, exponent: nat)
    requires exponent < 64
    ensures Pow2(exponent) < TWO64
    ensures ToHeapStart(address, Pow2(exponent)) == address - address % Pow2(exponent)
  {
    Pow2Values();
    Pow2Grows(exponent, 64);
    AndHighMask(address, 64, exponent);
  }

  function MainHeap(mem: Mem, layout: Layout, arena: Arena, start: U64, top: U64): (seq<Heap>, seq<Problem>)
    requires mem.TopWordUnmapped()
  {
    var end := WrappingAdd(top, WORD);
    var (size, problems) :=
      match CheckedSub(top, start)
      case Some(size) => (size, [])
      case None => (0, [HeapWalkTruncated(arena.index, TopBelowHeapStart)]);
    ([Heap(start, size, size, SkipZeroPadding(mem, start, end), end)], problems)
  }

  /** The region of the main arena: from `sbrk_base`, or from the segment that holds `top`. */
  function ListMain(mem: Mem, layout: Layout, libc: U64, arena: Arena): Listing
    requires mem.TopWordUnmapped()
  {
    var baseSlot := WrappingAdd(WrappingAdd(libc, layout.mpValue), layout.sbrkBaseOffset);
    var topSlot := WrappingAdd(arena.mallocStateAddr, layout.topOffset);
    if mem.Read(baseSlot).None? then Err(AddressNotMapped(baseSlot))
    else if mem.Read(topSlot).None? then Err(AddressNotMapped(topSlot))
    else
      var sbrkBase, top := mem.Read(baseSlot).value, mem.Read(topSlot).value;
      if sbrkBase == 0 || top == 0 then Ok(([], []))
      else if mem.SegmentStart(sbrkBase).Some? then Ok(MainHeap(mem, layout, arena, sbrkBase, top))
      else
        match mem.SegmentStart(top)
        case None => Ok(([], [HeapWalkTruncated(arena.index, HeapStartUndeterminable)]))
        case Some(segment) =>
          var maxScan := SaturatingMul(layout.heapMaxSize, 4);
          Ok(MainHeap(mem, layout, arena, Max(segment, SaturatingSub(top, maxScan)), top))
  }

  /** The slots the main heap is found from hold `sbrkBase` and `top`. */
  predicate MainSlots(mem: Mem, layout: Layout, libc: U64, arena: Arena, sbrkBase: U64, top: U64) {
    && mem.Read(WrappingAdd(WrappingAdd(libc, layout.mpValue), layout.sbrkBaseOffset)) == Some(sbrkBase)
    && mem.Read(WrappingAdd(arena.mallocStateAddr, layout.topOffset)) == Some(top)
  }

  /**
   * The main arena has a region exactly when its start can be told. The region ends a word past `top`, starts
   * behind zero padding only, and reaches back at most four times the maximal heap size when `sbrk_base` is
   * not mapped; the one thing reported about it is a start above `top`.
   */
  lemma MainRegion(mem: Mem, layout: Layout, libc: U64, arena: Arena, sbrkBase: U64, top: U64)
    requires mem.TopWordUnmapped() && MainSlots(mem, layout, libc, arena, sbrkBase, top)
    ensures ListMain(mem, layout, libc, arena).Ok?
    ensures var (heaps, problems) := ListMain(mem, layout, libc, arena).value;
            && |heaps| <= 1 && |problems| <= 1
            && (heaps != [] <==>
                sbrkBase != 0 && top != 0 && (mem.SegmentStart(sbrkBase).Some? || mem.SegmentStart(top).Some?))
            && (heaps == [] ==> (problems == [] <==> sbrkBase == 0 || top == 0))
            && (problems != [] ==>
                  problems == [HeapWalkTruncated(arena.index,
                                                 if heaps == [] then HeapStartUndeterminable else TopBelowHeapStart)])
            && (heaps != [] ==> IsMainRegion(mem, layout, sbrkBase, top, heaps[0], problems))
  {
    var (heaps, _) := ListMain(mem, layout, libc, arena).value;
    if heaps != [] {
      SkipsExactlyZeroWords(mem, heaps[0].address, WrappingAdd(top, WORD));
    }
  }

  /** The main heap cannot be looked for exactly when one of the two slots cannot be read. */
  lemma MainCannotStart(mem: Mem, layout: Layout, libc: U64, arena: Arena)
    requires mem.TopWordUnmapped()
    ensures var baseSlot := (libc + layout.mpValue + layout.sbrkBaseOffset) % TWO64;
            var topSlot := (arena.mallocStateAddr + layout.topOffset) % TWO64;
            && (mem.Read(baseSlot) == None ==> ListMain(mem, layout, libc, arena) == Err(AddressNotMapped(baseSlot)))
            && (mem.Read(baseSlot).Some? && mem.Read(topSlot) == None ==>
                  ListMain(mem, layout, libc, arena) == Err(AddressNotMapped(topSlot)))
            && (mem.Read(baseSlot).Some? && mem.Read(topSlot).Some? ==> ListMain(mem, layout, libc, arena).Ok?)
  {
    hide MainHeap;
  }

  ghost predicate IsMainRegion(
      mem: Mem, layout: Layout, sbrkBase: U64, top: U64, heap: Heap, problems: seq<Problem>)
  {
    && heap.regionEnd == WrappingAdd(top, WORD)
    && heap.size == heap.mprotectSize
    && (problems == [] <==> heap.address <= top)
    && (problems == [] ==> heap.address + heap.size == top)
    && (problems != [] ==> heap.size == 0)
    && (forall a :: heap.address <= a < heap.regionStart && (a - heap.address) % WORD == 0 ==> mem.Read(a) == Some(0))
    && (heap.regionStart < heap.regionEnd ==> mem.Read(heap.regionStart) != Some(0))
    && (if mem.SegmentStart(sbrkBase).Some? then heap.address == sbrkBase
        else
          && mem.SegmentStart(top).Some?
          && mem.SegmentStart(top).value <= heap.address
          && top <= heap.address + 4 * layout.heapMaxSize
          && (heap.address == mem.SegmentStart(top).value || heap.address + 4 * layout.heapMaxSize == top))
  }

  function ReadHeapInfo(mem: Mem, layout: Layout, address: U64): Result<HeapInfo, Error> {
    var sizeSlot := WrappingAdd(address, layout.heapInfoSizeOffset);
    var mprotectSlot := WrappingAdd(address, layout.heapInfoMprotectSizeOffset);
    var prevSlot := WrappingAdd(address, layout.heapInfoPrevOffset);
    if mem.Read(sizeSlot).None? then Err(AddressNotMapped(sizeSlot))
    else if mem.Read(mprotectSlot).None? then Err(AddressNotMapped(mprotectSlot))
    else if mem.Read(prevSlot).None? then Err(AddressNotMapped(prevSlot))
    else Ok(HeapInfo(mem.Read(sizeSlot).value, mem.Read(mprotectSlot).value, mem.Read(prevSlot).value))
  }

  /** The link from a heap to the older one, broken when its header is unreadable or its size absurd. */
  function PrevLinks(mem: Mem, layout: Layout, topHeap: U64): U64 -> Link<U64> {
    (heap: U64) =>
      match ReadHeapInfo(mem, layout, heap)
      case Err(_) => Broken
      case Ok(info) =>
        if heap != topHeap && heap + info.size >= TWO64 then Broken
        else if info.prev == 0 then End
        else To(info.prev)
  }

  function FirstChunkSearchStart(layout: Layout, heap: U64, info: HeapInfo): U64 {
    var past := WrappingAdd(heap, layout.heapInfoSize);
    if info.prev == 0 then WrappingAdd(past, layout.mainArenaSize) else past
  }

  /** The heap at an address, if its header is readable and its size stays in the address space. */
  function SecondaryHeap(mem: Mem, layout: Layout, top: U64, topHeap: U64, heap: U64): Option<Heap>
    requires mem.TopWordUnmapped()
  {
    match ReadHeapInfo(mem, layout, heap)
    case Err(_) => None
    case Ok(info) =>
      if heap != topHeap && heap + info.size >= TWO64 then None
      else
        var end := if heap == topHeap then WrappingAdd(top, WORD) else heap + info.size;
        Some(Heap(heap, info.size, info.mprotectSize,
                  SkipZeroPadding(mem, FirstChunkSearchStart(layout, heap, info), end), end))
  }

  function Older(mem: Mem, layout: Layout, arena: U32, top: U64, topHeap: U64, current: U64, found: seq<Heap>)
    : (seq<Heap>, seq<Problem>)
    requires mem.TopWordUnmapped() && |found| <= MAX_HEAPS
    decreases MAX_HEAPS - |found|
  {
    if |found| == MAX_HEAPS then (found, [HeapWalkTruncated(arena, HeapLimit)])
    else if current in Addresses(found) then (found, [HeapWalkTruncated(arena, HeapCycle)])
    else
      var info := ReadHeapInfo(mem, layout, current);
      var heap := SecondaryHeap(mem, layout, top, topHeap, current);
      if info.Err? then (found, [HeapWalkTruncated(arena, HeapInfoUnreadable)])
      else if heap.None? then (found, [HeapWalkTruncated(arena, HeapSizeOverflow)])
      else if info.value.prev == 0 then (found + [heap.value], [])
      else Older(mem, layout, arena, top, topHeap, info.value.prev, found + [heap.value])
  }

  function Addresses(heaps: seq<Heap>): (r: seq<U64>)
    ensures |r| == |heaps|
    ensures forall i :: 0 <= i < |r| ==> r[i] == heaps[i].address
  {
    seq(|heaps|, i requires 0 <= i < |heaps| => heaps[i].address)
  }

  function ListSecondary(mem: Mem, layout: Layout, arena: Arena): Listing
    requires mem.TopWordUnmapped() && layout.heapMaxSize > 0
  {
    var topSlot := WrappingAdd(arena.mallocStateAddr, layout.topOffset);
    match mem.Read(topSlot)
    case None => Err(AddressNotMapped(topSlot))
    case Some(top) =>
      if top == 0 then Ok(([], []))
      else
        var topHeap := ToHeapStart(top, layout.heapMaxSize);
        var first := ReadHeapInfo(mem, layout, topHeap);
        if first.Err? then Err(first.error)
        else Ok(Older(mem, layout, arena.index, top, topHeap, topHeap, []))
  }

  method ListSecondaryHeaps(mem: Mem, layout: Layout, arena: Arena) returns (r: Listing)
    requires mem.TopWordUnmapped() && layout.heapMaxSize > 0
    ensures r == ListSecondary(mem, layout, arena)
  {
    var topSlot := WrappingAdd(arena.mallocStateAddr, layout.topOffset);
    if mem.Read(topSlot).None? {
      return Err(AddressNotMapped(topSlot));
    }
    var top := mem.Read(topSlot).value;
    if top == 0 {
      return Ok(([], []));
    }
    r := WalkPrevChain(mem, layout, arena, top, ToHeapStart(top, layout.heapMaxSize));
  }

  method WalkPrevChain(mem: Mem, layout: Layout, arena: Arena, top: U64, topHeap: U64) returns (r: Listing)
    requires mem.TopWordUnmapped()
    ensures r == match ReadHeapInfo(mem, layout, topHeap)
                 case Err(error) => Err(error)
                 case Ok(_) => Ok(Older(mem, layout, arena.index, top, topHeap, topHeap, []))
  {
    var current := topHeap;
    var heaps: seq<Heap> := [];
    var problems: seq<Problem> := [];
    var visited: set<U64> := {};
    ghost var goal := Older(mem, layout, arena.index, top, topHeap, topHeap, []);
    while true
      invariant |heaps| <= MAX_HEAPS && problems == []
      invariant forall x :: x in visited <==> x in Addresses(heaps)
      invariant heaps == [] ==> current == topHeap
      invariant heaps != [] ==> ReadHeapInfo(mem, layout, topHeap).Ok?
      invariant Older(mem, layout, arena.index, top, topHeap, current, heaps) == goal
      decreases MAX_HEAPS - |heaps|
    {
      if |heaps| >= MAX_HEAPS {
        problems := [HeapWalkTruncated(arena.index, HeapLimit)];
        break;
      }
      var inserted := current !in visited;
      visited := visited + {current};
      if !inserted {
        problems := [HeapWalkTruncated(arena.index, HeapCycle)];
        break;
      }
      var read := ReadHeapInfo(mem, layout, current);
      if read.Err? {
        if heaps == [] {
          return Err(read.error);
        }
        problems := [HeapWalkTruncated(arena.index, HeapInfoUnreadable)];
        break;
      }
      var info := read.value;
      var regionEnd;
      if current == topHeap {
        regionEnd := WrappingAdd(top, WORD);
      } else {
        var end := CheckedAdd(current, info.size);
        if end.None? {
          problems := [HeapWalkTruncated(arena.index, HeapSizeOverflow)];
          break;
        }
        regionEnd := end.value;
      }
      var heapStart := WrappingAdd(current, layout.heapInfoSize);
      if info.prev == 0 {
        heapStart := WrappingAdd(heapStart, layout.mainArenaSize);
      }
      var regionStart := SkipPadding(mem, heapStart, regionEnd);
      var heap := Heap(current, info.size, info.mprotectSize, regionStart, regionEnd);
      assert Addresses(heaps + [heap]) == Addresses(heaps) + [current];
      heaps := heaps + [heap];
      if info.prev == 0 {
        break;
      }
      current := info.prev;
    }
    assert (heaps, problems) == goal;
    r := Ok((heaps, problems));
  }

  function ListHeaps(mem: Mem, layout: Layout, libc: U64, arena: Arena): Listing
    requires mem.TopWordUnmapped() && layout.heapMaxSize > 0
  {
    if arena.IsMain() then ListMain(mem, layout, libc, arena) else ListSecondary(mem, layout, arena)
  }

  /** `heaps` are the heaps along the `prev` links, none visited twice. */
  ghost predicate HeapOrbit(mem: Mem, layout: Layout, top: U64, topHeap: U64, heaps: seq<Heap>)
    requires mem.TopWordUnmapped()
  {
    && (forall i :: 0 <= i < |heaps| ==> SecondaryHeap(mem, layout, top, topHeap, heaps[i].address) == Some(heaps[i]))
    && (forall i :: 0 <= i < |heaps| - 1 ==>
          PrevLinks(mem, layout, topHeap)(heaps[i].address) == To(heaps[i + 1].address))
    && (forall i, j :: 0 <= i < j < |heaps| ==> heaps[i].address != heaps[j].address)
  }

  lemma {:induction false} OlderIsOrbit(
      mem: Mem, layout: Layout, arena: U32, top: U64, topHeap: U64, current: U64, found: seq<Heap>)
    requires mem.TopWordUnmapped() && |found| <= MAX_HEAPS
    requires HeapOrbit(mem, layout, top, topHeap, found)
    requires found != [] ==> PrevLinks(mem, layout, topHeap)(found[|found| - 1].address) == To(current)
    ensures var (heaps, problems) := Older(mem, layout, arena, top, topHeap, current, found);
            && HeapOrbit(mem, layout, top, topHeap, heaps)
            && found <= heaps
            && (heaps != found ==> heaps[|found|].address == current)
            && (|found| < MAX_HEAPS && current !in Addresses(found) && PrevLinks(mem, layout, topHeap)(current) != Broken
                ==> heaps != found)
            && |heaps| <= MAX_HEAPS
            && |problems| <= 1
            && (problems == [] <==>
                Follow(PrevLinks(mem, layout, topHeap), MAX_HEAPS, current, Addresses(found)).stop == Ended)
    decreases MAX_HEAPS - |found|
  {
    var links := PrevLinks(mem, layout, topHeap);
    if |found| < MAX_HEAPS && current !in Addresses(found) && links(current) != Broken {
      var all := found + [SecondaryHeap(mem, layout, top, topHeap, current).value];
      assert Addresses(all) == Addresses(found) + [current];
      AppendToOrbit(mem, layout, top, topHeap, current, found);
      if links(current).To? {
        OlderIsOrbit(mem, layout, arena, top, topHeap, links(current).next, all);
      }
    }
  }

  lemma AppendToOrbit(mem: Mem, layout: Layout, top: U64, topHeap: U64, current: U64, found: seq<Heap>)
    requires mem.TopWordUnmapped() && HeapOrbit(mem, layout, top, topHeap, found)
    requires found != [] ==> PrevLinks(mem, layout, topHeap)(found[|found| - 1].address) == To(current)
    requires current !in Addresses(found) && SecondaryHeap(mem, layout, top, topHeap, current).Some?
    ensures HeapOrbit(mem, layout, top, topHeap, found + [SecondaryHeap(mem, layout, top, topHeap, current).value])
  {
    forall i | 0 <= i < |found|
      ensures found[i].address != current
    {
      assert Addresses(found)[i] == found[i].address;
    }
  }

  lemma HeapsBelowTop(mem: Mem, layout: Layout, arena: U32, top: U64, topHeap: U64)
    requires mem.TopWordUnmapped() && ReadHeapInfo(mem, layout, topHeap).Ok?
    ensures var (heaps, problems) := Older(mem, layout, arena, top, topHeap, topHeap, []);
            && 0 < |heaps| <= MAX_HEAPS
            && heaps[0].address == topHeap && heaps[0].regionEnd == WrappingAdd(top, WORD)
            && HeapOrbit(mem, layout, top, topHeap, heaps)
            && |problems| <= 1
            && (problems == [] <==> Reaches(PrevLinks(mem, layout, topHeap), topHeap, MAX_HEAPS, End))
  {
    assert Addresses([]) == [];
    OlderIsOrbit(mem, layout, arena, top, topHeap, topHeap, []);
    FollowDecides(PrevLinks(mem, layout, topHeap), MAX_HEAPS, topHeap);
  }

  // ----- In words of memory -----

  /** The three words of the heap_info at an address. */
  predicate InfoWords(mem: Mem, layout: Layout, heap: U64, size: U64, committed: U64, prev: U64) {
    && mem.Read((heap + layout.heapInfoSizeOffset) % TWO64) == Some(size)
    && mem.Read((heap + layout.heapInfoMprotectSizeOffset) % TWO64) == Some(committed)
    && mem.Read((heap + layout.heapInfoPrevOffset) % TWO64) == Some(prev)
  }

  /** The heap's header is readable, its size stays in the address space, and its `prev` word is this one. */
  ghost predicate PrevWord(mem: Mem, layout: Layout, topHeap: U64, heap: U64, prev: U64) {
    exists size, committed ::
      InfoWords(mem, layout, heap, size, committed, prev) && (heap == topHeap || heap + size < TWO64)
  }

  /** Heaps from the one that holds `top` to the oldest, each the `prev` word of the one before; the last has 0. */
  ghost predicate PrevPath(mem: Mem, layout: Layout, topHeap: U64, path: seq<U64>) {
    && |path| > 0
    && path[0] == topHeap
    && forall i :: 0 <= i < |path| ==> PrevStep(mem, layout, topHeap, path, i)
  }

  ghost predicate PrevStep(mem: Mem, layout: Layout, topHeap: U64, path: seq<U64>, i: int)
    requires 0 <= i < |path|
  {
    if i == |path| - 1 then PrevWord(mem, layout, topHeap, path[i], 0)
    else path[i + 1] != 0 && PrevWord(mem, layout, topHeap, path[i], path[i + 1])
  }

  /**
   * A listed heap is what its words say: its sizes, and a region that ends where they, or `top`, put it, and
   * starts past the heap_info, past the malloc_state too in the oldest heap, and past zero padding.
   */
  predicate HeapInWords(mem: Mem, layout: Layout, top: U64, topHeap: U64, h: Heap, prev: U64)
    requires mem.TopWordUnmapped()
  {
    && InfoWords(mem, layout, h.address, h.size, h.mprotectSize, prev)
    && (if h.address == topHeap then h.regionEnd == (top + 8) % TWO64 else h.regionEnd == h.address + h.size)
    && h.regionStart ==
       SkipZeroPadding(mem,
         (h.address + layout.heapInfoSize + if prev == 0 then layout.mainArenaSize else 0) % TWO64, h.regionEnd)
  }

  /** Heap `i` is what its words say, and its `prev` word is the heap listed next. */
  predicate NewerHeap(mem: Mem, layout: Layout, top: U64, topHeap: U64, heaps: seq<Heap>, i: int)
    requires mem.TopWordUnmapped() && 0 <= i < |heaps| - 1
  {
    heaps[i + 1].address != 0 && HeapInWords(mem, layout, top, topHeap, heaps[i], heaps[i + 1].address)
  }

  /** The last heap listed is what its words say, and its `prev` word says why there is no further one. */
  ghost predicate LastHeap(
      mem: Mem, layout: Layout, arena: U32, top: U64, topHeap: U64, heaps: seq<Heap>, problems: seq<Problem>)
    requires mem.TopWordUnmapped() && |heaps| > 0
  {
    exists prev ::
      && HeapInWords(mem, layout, top, topHeap, heaps[|heaps| - 1], prev)
      && HeapsStop(mem, layout, arena, heaps, prev, problems)
  }

  /** Why no heap is listed at `prev`, and what is reported then. */
  ghost predicate HeapsStop(
      mem: Mem, layout: Layout, arena: U32, heaps: seq<Heap>, prev: U64, problems: seq<Problem>)
  {
    if prev == 0 then problems == []
    else if |heaps| == MAX_HEAPS then problems == [HeapWalkTruncated(arena, HeapLimit)]
    else if prev in Addresses(heaps) then problems == [HeapWalkTruncated(arena, HeapCycle)]
    else if !Readable(mem, layout, prev) then problems == [HeapWalkTruncated(arena, HeapInfoUnreadable)]
    else
      && problems == [HeapWalkTruncated(arena, HeapSizeOverflow)]
      && forall size, committed, older :: InfoWords(mem, layout, prev, size, committed, older) ==> prev + size >= TWO64
  }

  ghost predicate Readable(mem: Mem, layout: Layout, heap: U64) {
    exists size, committed, prev :: InfoWords(mem, layout, heap, size, committed, prev)
  }

  /** A listing in words of memory, from the heap that holds `top` on. */
  ghost predicate ListedInWords(
      mem: Mem, layout: Layout, arena: U32, top: U64, topHeap: U64, heaps: seq<Heap>, problems: seq<Problem>)
    requires mem.TopWordUnmapped()
  {
    && 0 < |heaps| <= MAX_HEAPS
    && heaps[0].address == topHeap
    && (forall i, j :: 0 <= i < j < |heaps| ==> heaps[i].address != heaps[j].address)
    && (forall i :: 0 <= i < |heaps| - 1 ==> NewerHeap(mem, layout, top, topHeap, heaps, i))
    && LastHeap(mem, layout, arena, top, topHeap, heaps, problems)
    && (problems == [] <==> exists path :: PrevPath(mem, layout, topHeap, path) && |path| <= 10_000)
  }

  lemma InfoIsWords(mem: Mem, layout: Layout, heap: U64, info: HeapInfo)
    ensures ReadHeapInfo(mem, layout, heap) == Ok(info)
       <==> InfoWords(mem, layout, heap, info.size, info.mprotectSize, info.prev)
  {
  }

  lemma LinkIsPrevWord(mem: Mem, layout: Layout, topHeap: U64, heap: U64, prev: U64)
    ensures PrevWord(mem, layout, topHeap, heap, prev)
       <==> PrevLinks(mem, layout, topHeap)(heap) == if prev == 0 then End else To(prev)
  {
    hide ReadHeapInfo;
    forall size, committed
      ensures ReadHeapInfo(mem, layout, heap) == Ok(HeapInfo(size, committed, prev))
         <==> InfoWords(mem, layout, heap, size, committed, prev)
    {
      InfoIsWords(mem, layout, heap, HeapInfo(size, committed, prev));
    }
    if PrevLinks(mem, layout, topHeap)(heap) == if prev == 0 then End else To(prev) {
      var info := ReadHeapInfo(mem, layout, heap).value;
      assert info == HeapInfo(info.size, info.mprotectSize, prev);
      assert InfoWords(mem, layout, heap, info.size, info.mprotectSize, prev);
    }
  }

  lemma PrevPathReaches(mem: Mem, layout: Layout, topHeap: U64)
    ensures Reaches(PrevLinks(mem, layout, topHeap), topHeap, MAX_HEAPS, End)
       <==> exists path :: PrevPath(mem, layout, topHeap, path) && |path| <= MAX_HEAPS
  {
    hide PrevLinks, PrevWord;
    var links := PrevLinks(mem, layout, topHeap);
    forall heap: U64, prev: U64
      ensures PrevWord(mem, layout, topHeap, heap, prev) <==> links(heap) == if prev == 0 then End else To(prev)
    {
      LinkIsPrevWord(mem, layout, topHeap, heap, prev);
    }
    LinksAreNotNull(mem, layout, topHeap);
    if Reaches(links, topHeap, MAX_HEAPS, End) {
      var path :| IsPath(links, topHeap, path) && |path| <= MAX_HEAPS && links(path[|path| - 1]) == End;
      forall i | 0 <= i < |path|
        ensures PrevStep(mem, layout, topHeap, path, i)
      {
        assert i < |path| - 1 ==> links(path[i]) == To(path[i + 1]);
      }
      assert PrevPath(mem, layout, topHeap, path);
    }
    if exists path :: PrevPath(mem, layout, topHeap, path) && |path| <= MAX_HEAPS {
      var path :| PrevPath(mem, layout, topHeap, path) && |path| <= MAX_HEAPS;
      forall i | 0 <= i < |path| - 1
        ensures links(path[i]) == To(path[i + 1])
      {
        assert PrevStep(mem, layout, topHeap, path, i);
      }
      assert PrevStep(mem, layout, topHeap, path, |path| - 1);
      assert IsPath(links, topHeap, path);
    }
  }

  lemma LinksAreNotNull(mem: Mem, layout: Layout, topHeap: U64)
    ensures forall heap: U64 ::
              PrevLinks(mem, layout, topHeap)(heap).To? ==> PrevLinks(mem, layout, topHeap)(heap).next != 0
  {
  }

  lemma SecondaryInWords(mem: Mem, layout: Layout, top: U64, topHeap: U64, h: Heap, prev: U64)
    requires mem.TopWordUnmapped()
    requires SecondaryHeap(mem, layout, top, topHeap, h.address) == Some(h)
    ensures PrevLinks(mem, layout, topHeap)(h.address) != Broken
    ensures PrevLinks(mem, layout, topHeap)(h.address) == (if prev == 0 then End else To(prev)) <==>
            HeapInWords(mem, layout, top, topHeap, h, prev)
  {
    hide SkipZeroPadding, ReadHeapInfo, InfoWords, FirstChunkSearchStart;
    var info := ReadHeapInfo(mem, layout, h.address).value;
    assert h.size == info.size && h.mprotectSize == info.mprotectSize;
    InfoIsWords(mem, layout, h.address, info);
    InfoIsWords(mem, layout, h.address, HeapInfo(h.size, h.mprotectSize, prev));
    SearchStart(layout, h.address, info);
  }

  lemma SearchStart(layout: Layout, heap: U64, info: HeapInfo)
    ensures FirstChunkSearchStart(layout, heap, info)
         == (heap + layout.heapInfoSize + if info.prev == 0 then layout.mainArenaSize else 0) % TWO64
  {
  }

  lemma BelowTopInWords(mem: Mem, layout: Layout, arena: U32, top: U64, topHeap: U64)
    requires mem.TopWordUnmapped() && ReadHeapInfo(mem, layout, topHeap).Ok?
    ensures var (heaps, problems) := Older(mem, layout, arena, top, topHeap, topHeap, []);
            ListedInWords(mem, layout, arena, top, topHeap, heaps, problems)
  {
    hide ReadHeapInfo, PrevLinks, SecondaryHeap, Older, HeapInWords;
    HeapsBelowTop(mem, layout, arena, top, topHeap);
    PrevPathReaches(mem, layout, topHeap);
    LinksAreNotNull(mem, layout, topHeap);
    OlderStops(mem, layout, arena, top, topHeap, topHeap, []);
    var (heaps, problems) := Older(mem, layout, arena, top, topHeap, topHeap, []);
    forall i | 0 <= i < |heaps| - 1
      ensures NewerHeap(mem, layout, top, topHeap, heaps, i)
    {
      assert PrevLinks(mem, layout, topHeap)(heaps[i].address) == To(heaps[i + 1].address);
      SecondaryInWords(mem, layout, top, topHeap, heaps[i], heaps[i + 1].address);
    }
    var oldest := heaps[|heaps| - 1];
    var link := PrevLinks(mem, layout, topHeap)(oldest.address);
    var prev := if link.To? then link.next else 0;
    SecondaryInWords(mem, layout, top, topHeap, oldest, prev);
    assert HeapsStop(mem, layout, arena, heaps, prev, problems);
  }

  /**
   * The heaps of a secondary arena, in words of memory. They start with the block that holds `top` and follow the
   * `prev` words without repetition, as far as these lead; each has the sizes and region its words give it.
   * Nothing is reported exactly when the words lead to a null `prev` within the limit.
   */
  lemma SecondaryHeaps(mem: Mem, layout: Layout, arena: Arena, top: U64)
    requires mem.TopWordUnmapped() && layout.heapMaxSize > 0
    requires mem.Read((arena.mallocStateAddr + layout.topOffset) % TWO64) == Some(top) && top != 0
    requires Readable(mem, layout, ToHeapStart(top, layout.heapMaxSize))
    ensures ListSecondary(mem, layout, arena).Ok?
    ensures ListedInWords(mem, layout, arena.index, top, ToHeapStart(top, layout.heapMaxSize),
                          ListSecondary(mem, layout, arena).value.0, ListSecondary(mem, layout, arena).value.1)
  {
    hide ReadHeapInfo, Older, ListedInWords, ToHeapStart, Readable;
    var topHeap := ToHeapStart(top, layout.heapMaxSize);
    ReadableIsWords(mem, layout, topHeap);
    BelowTopInWords(mem, layout, arena.index, top, topHeap);
  }

  lemma {:induction false} OlderStops(
      mem: Mem, layout: Layout, arena: U32, top: U64, topHeap: U64, current: U64, found: seq<Heap>)
    requires mem.TopWordUnmapped() && |found| <= MAX_HEAPS
    requires found == [] ==> current == topHeap && ReadHeapInfo(mem, layout, topHeap).Ok?
    requires found != [] ==>
               found[0].address == topHeap && PrevLinks(mem, layout, topHeap)(found[|found| - 1].address) == To(current)
    ensures var (heaps, problems) := Older(mem, layout, arena, top, topHeap, current, found);
            && heaps != []
            && var link := PrevLinks(mem, layout, topHeap)(heaps[|heaps| - 1].address);
               && link != Broken
               && (link.To? ==> link.next != 0)
               && HeapsStop(mem, layout, arena, heaps, if link == End then 0 else link.next, problems)
    decreases MAX_HEAPS - |found|
  {
    hide ReadHeapInfo, SkipZeroPadding, InfoWords;
    LinksAreNotNull(mem, layout, topHeap);
    ReadableIsWords(mem, layout, current);
    if |found| < MAX_HEAPS && current !in Addresses(found) {
      var info, heap := ReadHeapInfo(mem, layout, current), SecondaryHeap(mem, layout, top, topHeap, current);
      if info.Ok? && heap.Some? && info.value.prev != 0 {
        OlderStops(mem, layout, arena, top, topHeap, info.value.prev, found + [heap.value]);
      }
      assert found != [] ==> Addresses(found)[0] == topHeap;
    }
  }

  lemma ReadableIsWords(mem: Mem, layout: Layout, heap: U64)
    ensures ReadHeapInfo(mem, layout, heap).Ok? <==> Readable(mem, layout, heap)
    ensures forall size, committed, prev :: InfoWords(mem, layout, heap, size, committed, prev) ==>
              ReadHeapInfo(mem, layout, heap) == Ok(HeapInfo(size, committed, prev))
  {
    hide ReadHeapInfo, InfoWords;
    forall size, committed, prev
      ensures ReadHeapInfo(mem, layout, heap) == Ok(HeapInfo(size, committed, prev))
         <==> InfoWords(mem, layout, heap, size, committed, prev)
    {
      InfoIsWords(mem, layout, heap, HeapInfo(size, committed, prev));
    }
    if ReadHeapInfo(mem, layout, heap).Ok? {
      var info := ReadHeapInfo(mem, layout, heap).value;
      assert InfoWords(mem, layout, heap, info.size, info.mprotectSize, info.prev);
    }
  }

  /** What the listing gives when it cannot start: an unreadable `top` or first header is an error, a null `top` none. */
  lemma SecondaryCannotStart(mem: Mem, layout: Layout, arena: Arena)
    requires mem.TopWordUnmapped() && layout.heapMaxSize > 0
    ensures var slot := (arena.mallocStateAddr + layout.topOffset) % TWO64;
            && (mem.Read(slot) == None ==> ListSecondary(mem, layout, arena) == Err(AddressNotMapped(slot)))
            && (mem.Read(slot) == Some(0) ==> ListSecondary(mem, layout, arena) == Ok(([], [])))
            && (mem.Read(slot).Some? && mem.Read(slot).value != 0 ==>
                  var topHeap := ToHeapStart(mem.Read(slot).value, layout.heapMaxSize);
                  (ListSecondary(mem, layout, arena).Err? <==> !Readable(mem, layout, topHeap)))
  {
    hide Older, ToHeapStart, ReadHeapInfo, Readable;
    var slot := (arena.mallocStateAddr + layout.topOffset) % TWO64;
    if mem.Read(slot).Some? && mem.Read(slot).value != 0 {
      var topHeap := ToHeapStart(mem.Read(slot).value, layout.heapMaxSize);
      ReadableIsWords(mem, layout, topHeap);
    }
  }

  /** Only the oldest heap, whose `prev` word is null, has the arena's `malloc_state` skipped over. */
  lemma MallocStateSkippedOnlyInOldest(
      mem: Mem, layout: Layout, top: U64, topHeap: U64, heaps: seq<Heap>, i: nat)
    requires mem.TopWordUnmapped() && i < |heaps| && HeapOrbit(mem, layout, top, topHeap, heaps)
    ensures var oldest := mem.Read((heaps[i].address + layout.heapInfoPrevOffset) % TWO64) == Some(0);
            && (oldest ==> i == |heaps| - 1)
            && heaps[i].regionStart ==
               SkipZeroPadding(mem,
                 (heaps[i].address + layout.heapInfoSize + if oldest then layout.mainArenaSize else 0) % TWO64,
                 heaps[i].regionEnd)
  {
    hide SkipZeroPadding;
    assert SecondaryHeap(mem, layout, top, topHeap, heaps[i].address) == Some(heaps[i]);
    var link := PrevLinks(mem, layout, topHeap)(heaps[i].address);
    assert i < |heaps| - 1 ==> link == To(heaps[i + 1].address);
    LinksAreNotNull(mem, layout, topHeap);
    SecondaryInWords(mem, layout, top, topHeap, heaps[i], if link.To? then link.next else 0);
  }
}
