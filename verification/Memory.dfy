/** What the heap walkers are given: memory by address, the malloc layout, and problems to report. */
module Memory {
  import opened Words

  // The 64-bit target: every read is a 64-bit read.
  const WORD: U64 := 8
  const HEADER_SIZE: U64 := 8
  const MINSIZE: U64 := 32
  const ALIGNMENT: U64 := 16

  /** A reader of process memory: any partial function from addresses to words and to segments. */
  datatype Mem = Mem(words: map<U64, U64>, segments: map<U64, U64>) {
    function Read(address: U64): Option<U64> {
      if address in words then Some(words[address]) else None
    }

    /** Nothing is mapped at the last word of the address space. */
    predicate TopWordUnmapped() {
      forall address :: address in words ==> address + WORD < TWO64
    }

    function SegmentStart(address: U64): Option<U64> {
      if address in segments then Some(segments[address]) else None
    }
  }

  datatype Layout = Layout(
    fastbinArrayOffset: U32,
    fastbinCount: U32,
    topOffset: U32,
    nextOffset: U32,
    sbrkBaseOffset: U32,
    heapInfoSize: U32,
    heapInfoPrevOffset: U32,
    heapInfoSizeOffset: U32,
    heapInfoMprotectSizeOffset: U32,
    heapMaxSize: U64,
    tcacheMaxBins: U32,
    tcacheEntriesOffset: U32,
    mainArenaValue: U64,
    mainArenaSize: U64,
    mpValue: U64,
    tcacheValue: U64,
    threadArena: Option<U64>,
    tpOffReloc: Option<U64>,
    hasTcache: bool,
    hasSafeLinking: bool)

  datatype Error = AddressNotMapped(address: U64)

  datatype Reason =
    | StartAfterEnd | ChunkCapExceeded | BelowMinimum | NotAligned | AddressOverflow | PastRegionEnd
    | ArenaLimit | NextUnreadable | ArenaCycle | NextArenaUnreadable
    | HeapStartUndeterminable | TopBelowHeapStart
    | HeapLimit | HeapCycle | HeapInfoUnreadable | HeapSizeOverflow | HeapListStartUnreadable

  datatype Problem =
    | FastbinCycleDetected(arena: U32, bin: U32)
    | FastbinChunkReadFailed(arena: U32, bin: U32, address: U64)
    | TcacheCycleDetected(thread: I32, bin: U32)
    | TcacheChunkReadFailed(thread: I32, bin: U32, address: U64)
    | DuplicateTcacheEntry(thread: I32, bin: U32, address: U64)
    | ChunkReadFailed(arena: U32, address: U64)
    | HeapWalkTruncated(arena: U32, reason: Reason)
    | StatsInconsistent(arena: U32, size: U64)
    | ThreadTlsResolutionFailed(thread: I32)
}

/** The size field of a chunk: a size and three flags in the low bits. */
module ChunkBits {
  import opened Words
  import opened Bits

  const PREV_INUSE: U64 := 1
  const NON_MAIN_ARENA: U64 := 4
  const SIZE_MASK: U64 := MAX_U64 - 7

  function ChunkSize(raw: U64): U64 {
    raw - raw % 8
  }

  predicate PrevInUse(raw: U64) {
    raw % 2 == 1
  }

  predicate NonMainArena(raw: U64) {
    raw / 4 % 2 == 1
  }

  /** These are the source's masks: `raw & !7`, `raw & 1 != 0` and `raw & 4 != 0`. */
  lemma SizeMask(raw: U64)
    ensures ChunkSize(raw) == BitAnd(raw, SIZE_MASK)
  {
    Pow2Values();
    AndHighMask(raw, 64, 3);
  }

  lemma FlagMasks(raw: U64)
    ensures PrevInUse(raw) <==> BitAnd(raw, PREV_INUSE) != 0
    ensures NonMainArena(raw) <==> BitAnd(raw, NON_MAIN_ARENA) != 0
  {
    AndZero(raw / 2);
    AndZero(raw / 2 / 2 / 2);
    assert BitAnd(raw, NON_MAIN_ARENA) == 2 * BitAnd(raw / 2, 2);
    assert BitAnd(raw / 2, 2) == 2 * BitAnd(raw / 2 / 2, 1);
  }

  /** A 16-aligned size with the flags it may carry. */
  function WithFlags(size: U64, prevInUse: bool, mmapped: bool, nonMain: bool): int {
    size + (if prevInUse then 1 else 0) + (if mmapped then 2 else 0) + (if nonMain then 4 else 0)
  }

  /** The flags leave the size alone, and read back as they were set. */
  lemma FlagsReadBack(size: U64, prevInUse: bool, mmapped: bool, nonMain: bool)
    requires size % 16 == 0
    ensures var raw := WithFlags(size, prevInUse, mmapped, nonMain);
            && raw < TWO64
            && ChunkSize(raw) == size
            && PrevInUse(raw) == prevInUse
            && NonMainArena(raw) == nonMain
  {
    var q := size / 16;
    assert size == 16 * q && q < 0x1000_0000_0000_0000;
    var low := WithFlags(0, prevInUse, mmapped, nonMain);
    EighthOf(2 * q, low);
  }

  lemma EighthOf(k: nat, low: nat)
    requires low < 8
    ensures (8 * k + low) % 8 == low
    ensures (8 * k + low) % 2 == low % 2
    ensures (8 * k + low) / 4 % 2 == low / 4
  {
    QuotientUnique(8 * k + low, 8, k, low);
    QuotientUnique(8 * k + low, 2, 4 * k + low / 2, low % 2);
    QuotientUnique(8 * k + low, 4, 2 * k + low / 4, low % 4);
    QuotientUnique(2 * k + low / 4, 2, k, low / 4);
  }
}
