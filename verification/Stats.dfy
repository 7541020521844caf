/** Folding chunk events and free-list results into allocated and free totals. */
module Stats {
  import opened Words
  import opened Memory
  import opened FreeLists
  import opened ChunkWalk

  type Histogram = map<U64, U64>

  /** The `(thread, bin)` that owns a cached chunk. */
  datatype Owner = Owner(thread: I32, bin: U32)

  type Membership = map<U64, Owner>

  /** A running count and byte total, and how many chunks there are of each payload size. */
  datatype Tally = Tally(count: U64, bytes: U64, histogram: Histogram)

  const EMPTY_TALLY := Tally(0, 0, map[])

  function Bucket(histogram: Histogram, size: U64): U64 {
    if size in histogram then histogram[size] else 0
  }

  function Added(t: Tally, size: U64, n: U64): Tally {
    Tally(SaturatingAdd(t.count, n),
          SaturatingAdd(t.bytes, SaturatingMul(size, n)),
          t.histogram[size := SaturatingAdd(Bucket(t.histogram, size), n)])
  }

  function Removed(t: Tally, size: U64, n: U64): Tally {
    Tally(SaturatingSub(t.count, n),
          SaturatingSub(t.bytes, SaturatingMul(size, n)),
          t.histogram[size := SaturatingSub(Bucket(t.histogram, size), n)])
  }

  predicate Underflows(t: Tally, size: U64, n: U64) {
    t.count < n || Bucket(t.histogram, size) < n
  }

  /** The three things a tally records: how many chunks, how many bytes, how many of one size. */
  datatype Measure = Chunks | Bytes | OfSize(size: U64)

  function Weigh(m: Measure, size: nat, n: nat): nat {
    match m
    case Chunks => n
    case Bytes => Area(size, n)
    case OfSize(s) => if s == size then n else 0
  }

  function Area(size: nat, n: nat): nat {
    size * n
  }

  function Reading(t: Tally, m: Measure): U64 {
    match m
    case Chunks => t.count
    case Bytes => t.bytes
    case OfSize(s) => Bucket(t.histogram, s)
  }

  lemma AddedReading(t: Tally, size: U64, n: U64, m: Measure)
    ensures Reading(Added(t, size, n), m) == Min(Reading(t, m) + Weigh(m, size, n), MAX_U64)
  {
    assert Area(size, n) == size * n;
  }

  lemma RemovedReading(t: Tally, size: U64, n: U64, m: Measure)
    ensures Reading(Removed(t, size, n), m) == Max(Reading(t, m) - Weigh(m, size, n), 0)
  {
    assert Area(size, n) == size * n;
  }

  class SizeTally {
    var count: U64
    var bytes: U64
    var histogram: Histogram

    function Value(): Tally
      reads this
    {
      Tally(count, bytes, histogram)
    }

    constructor ()
      ensures Value() == EMPTY_TALLY
    {
      count, bytes, histogram := 0, 0, map[];
    }

    method AddN(size: U64, n: U64)
      modifies this
      ensures Value() == Added(old(Value()), size, n)
      ensures forall m :: Reading(Value(), m) == Min(Reading(old(Value()), m) + Weigh(m, size, n), MAX_U64)
    {
      count := SaturatingAdd(count, n);
      bytes := SaturatingAdd(bytes, SaturatingMul(size, n));
      histogram := histogram[size := SaturatingAdd(Bucket(histogram, size), n)];
    }

    method RemoveN(size: U64, n: U64) returns (underflow: bool)
      modifies this
      ensures Value() == Removed(old(Value()), size, n)
      ensures forall m :: Reading(Value(), m) == Max(Reading(old(Value()), m) - Weigh(m, size, n), 0)
      ensures underflow <==> Reading(old(Value()), Chunks) < n || Reading(old(Value()), OfSize(size)) < n
    {
      histogram := histogram[size := Bucket(histogram, size)];
      underflow := count < n || histogram[size] < n;
      count := SaturatingSub(count, n);
      bytes := SaturatingSub(bytes, SaturatingMul(size, n));
      histogram := histogram[size := SaturatingSub(histogram[size], n)];
    }
  }

  datatype BinTally = BinTally(index: U32, size: U64, count: U64, bytes: U64)

  datatype ArenaStats = ArenaStats(
    alloc: Tally,
    free: Tally,
    fastbins: seq<BinTally>,
    tcacheThreads: set<I32>,
    tcacheBins: seq<BinTally>,
    overheadCount: U64,
    overheadBytes: U64)

  // ----- First source and third source: one chunk event at a time -----

  datatype Books = Books(alloc: Tally, free: Tally, threads: set<I32>, cached: map<U32, U64>)

  const EMPTY_BOOKS := Books(EMPTY_TALLY, EMPTY_TALLY, {}, map[])

  function BinCount(cached: map<U32, U64>, bin: U32): U64 {
    if bin in cached then cached[bin] else 0
  }

  function Post(b: Books, e: ChunkEvent, members: Membership): Books {
    if !e.prevInuseSaysInUse then b.(free := Added(b.free, e.userSize, 1))
    else if e.userAddr in members then
      var owner := members[e.userAddr];
      Books(b.alloc,
            Added(b.free, e.userSize, 1),
            b.threads + {owner.thread},
            b.cached[owner.bin := SaturatingAdd(BinCount(b.cached, owner.bin), 1)])
    else b.(alloc := Added(b.alloc, e.userSize, 1))
  }

  function PostAll(events: seq<ChunkEvent>, members: Membership): Books {
    if events == [] then EMPTY_BOOKS
    else Post(PostAll(events[..|events| - 1], members), events[|events| - 1], members)
  }

  // ----- Second source: moving fastbin chunks from allocated to free -----

  datatype Transfer = Transfer(alloc: Tally, free: Tally, fastbins: seq<BinTally>, problems: seq<Problem>)

  function Move(t: Transfer, fb: FastbinResult, arena: U32): Transfer {
    if fb.count == 0 then t
    else
      Transfer(
        Removed(t.alloc, fb.size, fb.count),
        Added(t.free, fb.size, fb.count),
        t.fastbins + [BinTally(fb.index, fb.size, fb.count, SaturatingMul(fb.size, fb.count))],
        if Underflows(t.alloc, fb.size, fb.count) then t.problems + [StatsInconsistent(arena, fb.size)]
        else t.problems)
  }

  function MoveAll(b: Books, fastbins: seq<FastbinResult>, arena: U32): Transfer {
    if fastbins == [] then Transfer(b.alloc, b.free, [], [])
    else Move(MoveAll(b, fastbins[..|fastbins| - 1], arena), fastbins[|fastbins| - 1], arena)
  }

  // ----- The tcache bins, in ascending order as a BTreeMap yields them -----

  function MinKey(keys: set<nat>): (m: nat)
    requires keys != {}
    ensures m in keys && forall k :: k in keys ==> m <= k
  {
    LeastExists(keys);
    var m :| m in keys && forall k :: k in keys ==> m <= k;
    m
  }

  lemma {:induction false} LeastExists(keys: set<nat>)
    requires keys != {}
    ensures exists m :: m in keys && forall k :: k in keys ==> m <= k
  {
    var x :| x in keys;
    var rest := keys - {x};
    if rest == {} {
      assert keys == {x};
    } else {
      LeastExists(rest);
      var m :| m in rest && forall k :: k in rest ==> m <= k;
      var least := if x < m then x else m;
      assert forall k :: k in keys ==> k == x || k in rest;
      assert least in keys && forall k :: k in keys ==> least <= k;
    }
  }

  function TcacheBins(cached: map<U32, U64>): seq<BinTally>
    decreases |cached|
  {
    if cached == map[] then []
    else
      assert cached.Keys != {};
      var bin: U32 := MinKey(cached.Keys);
      var size := BinIndexToSize(bin);
      [BinTally(bin, size, cached[bin], SaturatingMul(size, cached[bin]))] + TcacheBins(cached - {bin})
  }

  function Account(arena: U32, events: seq<ChunkEvent>, members: Membership, fastbins: seq<FastbinResult>)
    : (ArenaStats, seq<Problem>)
    requires |events| < TWO64
  {
    var books := PostAll(events, members);
    var moved := MoveAll(books, fastbins, arena);
    (ArenaStats(moved.alloc, moved.free, moved.fastbins, books.threads, TcacheBins(books.cached),
                |events|, SaturatingMul(|events|, HEADER_SIZE)),
     moved.problems)
  }

  method Accumulate(arena: U32, events: seq<ChunkEvent>, members: Membership, fastbinResults: seq<FastbinResult>)
    returns (stats: ArenaStats, problems: seq<Problem>)
    requires |events| < TWO64
    ensures (stats, problems) == Account(arena, events, members, fastbinResults)
  {
    var alloc := new SizeTally();
    var free := new SizeTally();
    var tcacheThreads: set<I32> := {};
    var tcacheCounts: map<U32, U64> := map[];
    problems := [];

    for i := 0 to |events|
      invariant fresh(alloc) && fresh(free) && alloc != free
      invariant Books(alloc.Value(), free.Value(), tcacheThreads, tcacheCounts) == PostAll(events[..i], members)
    {
      var e := events[i];
      assert events[..i + 1][..i] == events[..i];
      if e.prevInuseSaysInUse {
        if e.userAddr in members {
          var owner := members[e.userAddr];
          free.AddN(e.userSize, 1);
          tcacheThreads := tcacheThreads + {owner.thread};
          tcacheCounts := tcacheCounts[owner.bin := SaturatingAdd(BinCount(tcacheCounts, owner.bin), 1)];
        } else {
          alloc.AddN(e.userSize, 1);
        }
      } else {
        free.AddN(e.userSize, 1);
      }
    }
    assert events[..|events|] == events;
    ghost var books := PostAll(events, members);

    var fastbins: seq<BinTally> := [];
    for i := 0 to |fastbinResults|
      invariant fresh(alloc) && fresh(free) && alloc != free
      invariant Transfer(alloc.Value(), free.Value(), fastbins, problems)
             == MoveAll(books, fastbinResults[..i], arena)
    {
      var fb := fastbinResults[i];
      assert fastbinResults[..i + 1][..i] == fastbinResults[..i];
      if fb.count == 0 {
        continue;
      }
      var underflow := alloc.RemoveN(fb.size, fb.count);
      if underflow {
        problems := problems + [StatsInconsistent(arena, fb.size)];
      }
      free.AddN(fb.size, fb.count);
      fastbins := fastbins + [BinTally(fb.index, fb.size, fb.count, SaturatingMul(fb.size, fb.count))];
    }
    assert fastbinResults[..|fastbinResults|] == fastbinResults;

    stats := ArenaStats(alloc.Value(), free.Value(), fastbins, tcacheThreads, TcacheBins(tcacheCounts),
                        |events|, SaturatingMul(|events|, HEADER_SIZE));
  }
}
