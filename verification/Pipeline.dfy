/** The analysis of a core: arenas, TLS, and per arena its heaps, chunks, fastbins and totals. */
module Pipeline {
  import opened Words
  import opened Memory
  import opened FreeLists
  import opened Arenas
  import opened HeapList
  import opened ChunkWalk
  import opened Stats
  import opened Report
  import opened Tls

  datatype Analysis = Analysis(problems: seq<Problem>, reports: seq<ArenaReport>)

  type Outcome = Result<Analysis, Error>

  // ----- The fastbins of an arena -----

  function FastbinSlot(layout: Layout, arena: Arena, bin: U32): U64 {
    WrappingAdd(WrappingAdd(arena.mallocStateAddr, layout.fastbinArrayOffset), bin * WORD)
  }

  /** The first `bins` fastbins; one whose head cannot be read is left out and reported. */
  function Fastbins(mem: Mem, layout: Layout, arena: Arena, bins: U32): (seq<FastbinResult>, seq<Problem>)
    decreases bins
  {
    if bins == 0 then ([], [])
    else
      var (results, problems) := Fastbins(mem, layout, arena, bins - 1);
      var slot := FastbinSlot(layout, arena, bins - 1);
      match mem.Read(slot)
      case None => (results, problems + [FastbinChunkReadFailed(arena.index, bins - 1, slot)])
      case Some(head) =>
        var (result, more) := FastbinWalk(mem, layout, head, arena.index, bins - 1);
        (results + [result], problems + more)
  }

  method WalkArenaFastbins(mem: Mem, layout: Layout, arena: Arena)
    returns (results: seq<FastbinResult>, problems: seq<Problem>)
    ensures (results, problems) == Fastbins(mem, layout, arena, layout.fastbinCount)
  {
    results, problems := [], [];
    for bin := 0 to layout.fastbinCount
      invariant (results, problems) == Fastbins(mem, layout, arena, bin)
    {
      var headSlot := FastbinSlot(layout, arena, bin);
      var head := mem.Read(headSlot);
      if head.None? {
        problems := problems + [FastbinChunkReadFailed(arena.index, bin, headSlot)];
        continue;
      }
      var result, more := WalkFastbin(mem, layout, head.value, arena.index, bin);
      problems := problems + more;
      results := results + [result];
    }
  }

  // ----- The chunks of all the heaps of an arena -----

  function ChunksOf(mem: Mem, arena: Arena, heaps: seq<Heap>): (seq<ChunkEvent>, seq<Problem>) {
    if heaps == [] then ([], [])
    else
      var h := heaps[|heaps| - 1];
      var (events, problems) := ChunksOf(mem, arena, heaps[..|heaps| - 1]);
      var (more, moreProblems) := Walk(mem, arena.index, h.regionStart, h.regionEnd, arena.IsMain());
      (events + more, problems + moreProblems)
  }

  lemma {:induction false} ChunksBounded(mem: Mem, arena: Arena, heaps: seq<Heap>)
    ensures |ChunksOf(mem, arena, heaps).0| <= MAX_CHUNKS * |heaps|
  {
    if heaps != [] {
      var h := heaps[|heaps| - 1];
      ChunksBounded(mem, arena, heaps[..|heaps| - 1]);
      EventsTile(mem, arena.index, h.regionStart, h.regionEnd, arena.IsMain());
    }
  }

  lemma HeapsBounded(mem: Mem, layout: Layout, libc: U64, arena: Arena)
    requires mem.TopWordUnmapped() && layout.heapMaxSize > 0
    requires ListHeaps(mem, layout, libc, arena).Ok?
    ensures |ListHeaps(mem, layout, libc, arena).value.0| <= MAX_HEAPS
  {
    if !arena.IsMain() {
      var top := mem.Read(WrappingAdd(arena.mallocStateAddr, layout.topOffset)).value;
      if top != 0 {
        HeapsBelowTop(mem, layout, arena.index, top, ToHeapStart(top, layout.heapMaxSize));
      }
    }
  }

  // ----- One arena -----

  /** Threads bound to the arena. */
  function Attached(arena: Arena, threads: seq<Thread>, arenas: map<I32, U64>): seq<I32> {
    if threads == [] then []
    else
      var t := threads[|threads| - 1];
      Attached(arena, threads[..|threads| - 1], arenas)
      + if t.threadId in arenas && arenas[t.threadId] == arena.mallocStateAddr then [t.threadId] else []
  }

  /** A main arena whose heaps cannot be listed is an error; a secondary one degrades to a stub. */
  function AnalyzeArena(mem: Mem, layout: Layout, libc: U64, threads: seq<Thread>, tls: TlsInfo, arena: Arena)
    : Result<(ArenaReport, seq<Problem>), Error>
    requires mem.TopWordUnmapped() && layout.heapMaxSize > 0
  {
    var attached := Attached(arena, threads, tls.arenas);
    match ListHeaps(mem, layout, libc, arena)
    case Err(error) =>
      if arena.IsMain() then Err(error)
      else Ok((Stub(arena.index, false, attached), [HeapWalkTruncated(arena.index, HeapListStartUnreadable)]))
    case Ok((heaps, heapProblems)) =>
      HeapsBounded(mem, layout, libc, arena);
      ChunksBounded(mem, arena, heaps);
      var (events, walkProblems) := ChunksOf(mem, arena, heaps);
      var (fastbins, fastbinProblems) := Fastbins(mem, layout, arena, layout.fastbinCount);
      var (stats, statProblems) := Account(arena.index, events, tls.members, fastbins);
      Ok((Build(arena.index, arena.IsMain(), attached, heaps, stats),
          heapProblems + walkProblems + fastbinProblems + statProblems))
  }

  function AnalyzeArenas(
      mem: Mem, layout: Layout, libc: U64, threads: seq<Thread>, tls: TlsInfo, arenas: seq<Arena>): Outcome
    requires mem.TopWordUnmapped() && layout.heapMaxSize > 0
  {
    if arenas == [] then Ok(Analysis([], []))
    else
      match AnalyzeArenas(mem, layout, libc, threads, tls, arenas[..|arenas| - 1])
      case Err(error) => Err(error)
      case Ok(before) =>
        match AnalyzeArena(mem, layout, libc, threads, tls, arenas[|arenas| - 1])
        case Err(error) => Err(error)
        case Ok((report, problems)) => Ok(Analysis(before.problems + problems, before.reports + [report]))
  }

  /** The whole analysis, from located libc and parsed threads to reports and problems. */
  function Analyze(mem: Mem, layout: Layout, libc: U64, threads: seq<Thread>): Outcome
    requires mem.TopWordUnmapped() && layout.heapMaxSize > 0
  {
    match ListArenas(mem, layout, libc)
    case Err(error) => Err(error)
    case Ok((arenas, arenaProblems)) =>
      var tls := Resolve(mem, layout, libc, MainAddress(layout, libc), threads);
      match AnalyzeArenas(mem, layout, libc, threads, tls, arenas)
      case Err(error) => Err(error)
      case Ok(analysis) =>
        Ok(Analysis(arenaProblems + tls.problems + analysis.problems, analysis.reports))
  }

  method AnalyzeOneArena(mem: Mem, layout: Layout, libc: U64, threads: seq<Thread>, tls: TlsInfo, arena: Arena)
    returns (r: Result<(ArenaReport, seq<Problem>), Error>)
    requires mem.TopWordUnmapped() && layout.heapMaxSize > 0
    ensures r == AnalyzeArena(mem, layout, libc, threads, tls, arena)
  {
    var attached := Attached(arena, threads, tls.arenas);
    var listing;
    if arena.IsMain() {
      listing := ListMain(mem, layout, libc, arena);
    } else {
      listing := ListSecondaryHeaps(mem, layout, arena);
    }
    if listing.Err? {
      if arena.IsMain() {
        return Err(listing.error);
      }
      return Ok((Stub(arena.index, false, attached), [HeapWalkTruncated(arena.index, HeapListStartUnreadable)]));
    }
    var heaps, heapProblems := listing.value.0, listing.value.1;
    HeapsBounded(mem, layout, libc, arena);
    ChunksBounded(mem, arena, heaps);

    var events: seq<ChunkEvent>, walkProblems: seq<Problem> := [], [];
    for i := 0 to |heaps|
      invariant (events, walkProblems) == ChunksOf(mem, arena, heaps[..i])
    {
      assert heaps[..i + 1][..i] == heaps[..i];
      var more, problems :=
        WalkRegion(mem, arena.index, heaps[i].regionStart, heaps[i].regionEnd, arena.IsMain());
      events := events + more;
      walkProblems := walkProblems + problems;
    }
    assert heaps[..|heaps|] == heaps;

    var fastbins, fastbinProblems := WalkArenaFastbins(mem, layout, arena);
    var stats, statProblems := Accumulate(arena.index, events, tls.members, fastbins);
    r := Ok((Build(arena.index, arena.IsMain(), attached, heaps, stats),
             heapProblems + walkProblems + fastbinProblems + statProblems));
  }

  method AnalyzeCore(mem: Mem, layout: Layout, libc: U64, threads: seq<Thread>) returns (r: Outcome)
    requires mem.TopWordUnmapped() && layout.heapMaxSize > 0
    ensures r == Analyze(mem, layout, libc, threads)
  {
    var listed := List(mem, layout, libc);
    if listed.Err? {
      return Err(listed.error);
    }
    var arenas, problems := listed.value.0, listed.value.1;
    var tls := ResolveTls(mem, layout, libc, MainAddress(layout, libc), threads);
    var analysis := Analysis([], []);
    for i := 0 to |arenas|
      invariant AnalyzeArenas(mem, layout, libc, threads, tls, arenas[..i]) == Ok(analysis)
    {
      assert arenas[..i + 1][..i] == arenas[..i];
      var one := AnalyzeOneArena(mem, layout, libc, threads, tls, arenas[i]);
      if one.Err? {
        ErrorStops(mem, layout, libc, threads, tls, arenas, i + 1);
        return Err(one.error);
      }
      analysis := Analysis(analysis.problems + one.value.1, analysis.reports + [one.value.0]);
    }
    assert arenas[..|arenas|] == arenas;
    r := Ok(Analysis(problems + tls.problems + analysis.problems, analysis.reports));
  }

  lemma {:induction false} ErrorStops(
      mem: Mem, layout: Layout, libc: U64, threads: seq<Thread>, tls: TlsInfo, arenas: seq<Arena>, i: nat)
    requires mem.TopWordUnmapped() && layout.heapMaxSize > 0
    requires i <= |arenas| && AnalyzeArenas(mem, layout, libc, threads, tls, arenas[..i]).Err?
    ensures AnalyzeArenas(mem, layout, libc, threads, tls, arenas)
         == AnalyzeArenas(mem, layout, libc, threads, tls, arenas[..i])
    decreases |arenas|
  {
    if i == |arenas| {
      assert arenas[..i] == arenas;
    } else {
      assert arenas[..|arenas| - 1][..i] == arenas[..i];
      ErrorStops(mem, layout, libc, threads, tls, arenas[..|arenas| - 1], i);
    }
  }
}
