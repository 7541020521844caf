/** Writing the chunks of an abstract heap into memory, and analysing it back. */
module Encoding {
  import opened Words
  import opened Memory
  import opened ChunkBits
  import opened Orbit
  import opened FreeLists
  import opened Arenas
  import opened Tls
  import opened Pipeline
  import opened AbstractHeap
  import opened ProcessTls
  import EndToEnd

  // ----- What is written -----

  /** The size field of chunk `i`: PREV_INUSE for the chunk just before it, NON_MAIN_ARENA outside the main arena. */
  function HeaderWord(layout: Layout, p: Process, i: nat): U64
    requires i < |p.blocks| && SoundBlock(layout, p.blocks[i]) && |p.shares| > 0
  {
    var b := p.blocks[i];
    var prevInUse := i == 0 || p.blocks[i - 1].at + p.blocks[i - 1].size != b.at || !p.blocks[i - 1].fate.Free?;
    FlagsReadBack(b.size, prevInUse, false, i >= p.shares[0].to);
    WithFlags(b.size, prevInUse, false, i >= p.shares[0].to)
  }

  predicate IsChained(b: Block) {
    b.fate.Fast? || b.fate.Cached?
  }

  predicate InBin(layout: Layout, threads: nat, p: Process, fate: Fate) {
    match fate
    case Fast(a, f) => a < |p.shares| && f < layout.fastbinCount
    case Cached(t, b) => t < threads && b < layout.tcacheMaxBins
    case _ => false
  }

  /** The chain order a chunk belongs to. */
  ghost function OrderOf(layout: Layout, threads: nat, p: Process, fate: Fate): (order: seq<nat>)
    requires WellFormed(layout, threads, p) && InBin(layout, threads, p, fate)
    ensures Orders(p, order, fate)
  {
    match fate
    case Fast(a, f) => assert SoundShare(layout, p, a); p.shares[a].fastOrder[f]
    case Cached(t, b) => p.cacheOrder[t][b]
  }

  /** The pointers along a chain: chunks for a fastbin, user addresses for a tcache bin. */
  function Pointers(p: Process, order: seq<nat>, fast: bool): (r: seq<U64>)
    requires InRange(p, order)
    ensures |r| == |order|
  {
    if fast then ChunkPointers(p, order) else Users(p, order)
  }

  function IndexOf(order: seq<nat>, i: nat): (k: nat)
    requires i in order
    ensures k < |order| && order[k] == i
  {
    if order[0] == i then 0 else 1 + IndexOf(order[1..], i)
  }

  lemma ChainedIsInBin(layout: Layout, threads: nat, p: Process, i: nat)
    requires WellFormed(layout, threads, p) && i < |p.blocks| && IsChained(p.blocks[i])
    ensures InBin(layout, threads, p, p.blocks[i].fate)
  {
    assert SoundBlock(layout, p.blocks[i]);
  }

  /** The link stored in a chained chunk, at its user address: the next pointer, xored under safe linking. */
  ghost function LinkWord(layout: Layout, threads: nat, p: Process, i: nat): U64
    requires WellFormed(layout, threads, p) && i < |p.blocks| && IsChained(p.blocks[i])
  {
    ChainedIsInBin(layout, threads, p, i);
    var fate := p.blocks[i].fate;
    var order := OrderOf(layout, threads, p, fate);
    Protect(layout, UserOf(p.blocks[i]), NextOf(Pointers(p, order, fate.Fast?), IndexOf(order, i)))
  }

  /** Clear of all chunks. */
  predicate Outside(p: Process, a: U64) {
    forall i :: 0 <= i < |p.blocks| ==> !(p.blocks[i].at <= a < p.blocks[i].at + p.blocks[i].size)
  }

  ghost function Headers(layout: Layout, threads: nat, p: Process): map<U64, U64>
    requires WellFormed(layout, threads, p)
  {
    FieldsDiffer(layout, p.blocks);
    AllSound(layout, p.blocks);
    map i | 0 <= i < |p.blocks| :: p.blocks[i].at := HeaderWord(layout, p, i)
  }

  ghost function Links(layout: Layout, threads: nat, p: Process): map<U64, U64>
    requires WellFormed(layout, threads, p)
  {
    FieldsDiffer(layout, p.blocks);
    map i | 0 <= i < |p.blocks| && IsChained(p.blocks[i]) :: UserOf(p.blocks[i]) := LinkWord(layout, threads, p, i)
  }

  lemma AllSound(layout: Layout, blocks: seq<Block>)
    requires SoundBlocks(layout, blocks)
    ensures forall i :: 0 <= i < |blocks| ==> SoundBlock(layout, blocks[i])
  {
  }

  lemma FieldsDiffer(layout: Layout, blocks: seq<Block>)
    requires SoundBlocks(layout, blocks)
    ensures forall i, j :: 0 <= i < j < |blocks| ==> blocks[i].at != blocks[j].at
    ensures forall i, j :: 0 <= i < j < |blocks| ==> UserOf(blocks[i]) != UserOf(blocks[j])
    ensures forall i, j :: 0 <= i < |blocks| && 0 <= j < |blocks| ==> blocks[i].at != UserOf(blocks[j])
  {
    hide UserOf;
    forall i, j | 0 <= i < |blocks| && 0 <= j < |blocks|
      ensures blocks[i].at != UserOf(blocks[j])
      ensures i != j ==> blocks[i].at != blocks[j].at && UserOf(blocks[i]) != UserOf(blocks[j])
    {
      assert SoundBlock(layout, blocks[i]) && SoundBlock(layout, blocks[j]);
      assert i < j ==> Disjoint(blocks[i], blocks[j]);
      assert j < i ==> Disjoint(blocks[j], blocks[i]);
      UserIs(layout, blocks[i]);
      UserIs(layout, blocks[j]);
    }
  }

  /** The rest of the process's memory, with the chunks written into it. */
  ghost function Encode(layout: Layout, threads: nat, rest: Mem, p: Process): Mem
    requires WellFormed(layout, threads, p)
  {
    Mem(rest.words + Headers(layout, threads, p) + Links(layout, threads, p), rest.segments)
  }

  lemma ReadsHeader(layout: Layout, threads: nat, rest: Mem, p: Process, i: nat)
    requires WellFormed(layout, threads, p) && i < |p.blocks|
    ensures SoundBlock(layout, p.blocks[i])
    ensures Encode(layout, threads, rest, p).Read(p.blocks[i].at) == Some(HeaderWord(layout, p, i))
  {
    hide HeaderWord, Headers, Links, SoundShare, Orders, SoundBlock, WellFormed;
    SoundOne(layout, threads, p, i);
    HeaderIsWritten(layout, threads, p, i);
    NoLinkThere(layout, threads, p, i);
  }

  lemma SoundOne(layout: Layout, threads: nat, p: Process, i: nat)
    requires WellFormed(layout, threads, p) && i < |p.blocks|
    ensures SoundBlock(layout, p.blocks[i]) && |p.shares| > 0
  {
  }

  lemma HeaderIsWritten(layout: Layout, threads: nat, p: Process, i: nat)
    requires WellFormed(layout, threads, p) && i < |p.blocks| && SoundBlock(layout, p.blocks[i])
    ensures p.blocks[i].at in Headers(layout, threads, p)
    ensures Headers(layout, threads, p)[p.blocks[i].at] == HeaderWord(layout, p, i)
  {
    hide HeaderWord, UserOf, SoundBlock, SoundShare, Orders;
    FieldsDiffer(layout, p.blocks);
  }

  lemma NoLinkThere(layout: Layout, threads: nat, p: Process, i: nat)
    requires WellFormed(layout, threads, p) && i < |p.blocks|
    ensures p.blocks[i].at !in Links(layout, threads, p)
  {
    hide LinkWord, UserOf, SoundBlock, SoundShare, Orders;
    FieldsDiffer(layout, p.blocks);
  }

  lemma ReadsLink(layout: Layout, threads: nat, rest: Mem, p: Process, i: nat)
    requires WellFormed(layout, threads, p) && i < |p.blocks| && IsChained(p.blocks[i])
    ensures Encode(layout, threads, rest, p).Read(UserOf(p.blocks[i])) == Some(LinkWord(layout, threads, p, i))
  {
    hide HeaderWord, LinkWord, UserOf, SoundBlock, SoundShare, Orders, Headers;
    FieldsDiffer(layout, p.blocks);
    var a := UserOf(p.blocks[i]);
    assert a in Links(layout, threads, p);
    assert Links(layout, threads, p)[a] == LinkWord(layout, threads, p, i);
  }

  lemma ReadsRest(layout: Layout, threads: nat, rest: Mem, p: Process, a: U64)
    requires WellFormed(layout, threads, p) && Outside(p, a)
    ensures Encode(layout, threads, rest, p).Read(a) == rest.Read(a)
  {
    hide HeaderWord, LinkWord, UserOf, SoundShare, Orders;
    forall i | 0 <= i < |p.blocks|
      ensures p.blocks[i].at != a && UserOf(p.blocks[i]) != a
    {
      assert SoundBlock(layout, p.blocks[i]);
      UserIs(layout, p.blocks[i]);
    }
    assert a !in Headers(layout, threads, p) && a !in Links(layout, threads, p);
  }

  // ----- The chunks read back -----

  lemma HeaderReadsBack(layout: Layout, p: Process, i: nat)
    requires i < |p.blocks| && SoundBlock(layout, p.blocks[i]) && |p.shares| > 0
    ensures ChunkSize(HeaderWord(layout, p, i)) == p.blocks[i].size
    ensures NonMainArena(HeaderWord(layout, p, i)) == (i >= p.shares[0].to)
    ensures i > 0 && p.blocks[i - 1].at + p.blocks[i - 1].size == p.blocks[i].at ==>
              PrevInUse(HeaderWord(layout, p, i)) == !p.blocks[i - 1].fate.Free?
  {
    var b := p.blocks[i];
    var prevInUse := i == 0 || p.blocks[i - 1].at + p.blocks[i - 1].size != b.at || !p.blocks[i - 1].fate.Free?;
    FlagsReadBack(b.size, prevInUse, false, i >= p.shares[0].to);
  }

  /** The chunk is followed by the next one, or by a word of the rest that tells whether it is in use. */
  ghost predicate Continues(rest: Mem, p: Process, i: nat)
    requires i < |p.blocks|
  {
    var next := p.blocks[i].at + p.blocks[i].size;
    || (i + 1 < |p.blocks| && p.blocks[i + 1].at == next)
    || (next < TWO64 && Outside(p, next) && rest.Read(next).Some?
        && PrevInUse(rest.Read(next).value) == !p.blocks[i].fate.Free?)
  }

  /** Every encoded chunk is held: its size field reads back, and the one after it tells its in-use bit. */
  lemma EncodesChunk(layout: Layout, threads: nat, rest: Mem, p: Process, i: nat)
    requires WellFormed(layout, threads, p) && i < |p.blocks| && Continues(rest, p, i)
    ensures HoldsChunk(Encode(layout, threads, rest, p), p.blocks[i])
  {
    hide HeaderWord, ChunkSize, PrevInUse, NonMainArena, Encode, SoundShare, Orders;
    AllSound(layout, p.blocks);
    ReadsHeader(layout, threads, rest, p, i);
    HeaderReadsBack(layout, p, i);
    var next := p.blocks[i].at + p.blocks[i].size;
    if i + 1 < |p.blocks| && p.blocks[i + 1].at == next {
      ReadsHeader(layout, threads, rest, p, i + 1);
      HeaderReadsBack(layout, p, i + 1);
    } else {
      ReadsRest(layout, threads, rest, p, next);
    }
  }

  lemma {:induction false} IndexUnique(order: seq<nat>, k: nat)
    requires Distinct(order) && k < |order|
    ensures IndexOf(order, order[k]) == k
  {
    if k > 0 {
      IndexUnique(order[1..], k - 1);
    }
  }

  lemma SlotIsUser(layout: Layout, b: Block, fast: bool)
    requires SoundBlock(layout, b)
    ensures SlotOf(if fast then ChunkOf(b) else UserOf(b), if fast then 16 else 0) == UserOf(b)
    ensures ChunkOf(b) != 0 && UserOf(b) != 0
  {
    UserIs(layout, b);
  }

  lemma ProtectedLink(mem: Mem, layout: Layout, slot: U64, next: U64)
    requires mem.Read(slot) == Some(Protect(layout, slot, next))
    ensures StoredLink(mem, layout, slot, next)
  {
    RevealInvertsProtect(layout, slot, next);
  }

  /** Every encoded fastbin or tcache chain is stored node by node, each link protected by its place. */
  lemma EncodesChain(layout: Layout, threads: nat, rest: Mem, p: Process, fate: Fate)
    requires WellFormed(layout, threads, p) && InBin(layout, threads, p, fate)
    ensures StoresChain(Encode(layout, threads, rest, p), layout, if fate.Fast? then 16 else 0,
                        Pointers(p, OrderOf(layout, threads, p, fate), fate.Fast?))
  {
    hide StoredLink, UserOf, ChunkOf, SlotOf, Encode, SoundBlock, SoundShare, Protect;
    var order := OrderOf(layout, threads, p, fate);
    var nodes := Pointers(p, order, fate.Fast?);
    var mem := Encode(layout, threads, rest, p);
    AllSound(layout, p.blocks);
    forall k | 0 <= k < |nodes|
      ensures nodes[k] != 0
      ensures StoredLink(mem, layout, SlotOf(nodes[k], if fate.Fast? then 16 else 0), NextOf(nodes, k))
    {
      var b := p.blocks[order[k]];
      SlotIsUser(layout, b, fate.Fast?);
      IndexUnique(order, k);
      ReadsLink(layout, threads, rest, p, order[k]);
      ProtectedLink(mem, layout, UserOf(b), NextOf(nodes, k));
    }
  }

  // ----- The rest of memory -----

  /** The words of `rest` that are clear of all chunks. */
  function Outer(rest: Mem, p: Process): Mem {
    Mem(map a | a in rest.words && Outside(p, a) :: rest.words[a], rest.segments)
  }

  ghost predicate ShareFrame(mem: Mem, layout: Layout, libc: U64, p: Process, a: nat)
    requires a < |p.shares| && SoundShare(layout, p, a) && layout.heapMaxSize > 0
  {
    && (if a == 0 then exists base, top :: HoldsMain(mem, layout, libc, p, p.shares[a], base, top)
        else
          exists top ::
            && TopWords(mem, layout, p.shares[a], top)
            && forall k :: 0 <= k < |p.shares[a].runs| ==> HeapFrame(mem, layout, p, p.shares[a], k, top))
    && forall f: U32 :: f < layout.fastbinCount ==>
         Orders(p, p.shares[a].fastOrder[f], Fast(a, f))
         && FastbinHead(mem, layout, p, p.shares[a].address, p.shares[a].fastOrder[f], f)
  }

  ghost predicate TcacheFrame(mem: Mem, layout: Layout, p: Process, tcache: U64, t: nat)
    requires t < |p.cacheOrder| && |p.cacheOrder[t]| == layout.tcacheMaxBins
  {
    if tcache == 0 then NothingCached(p, t)
    else
      forall b: U32 :: b < layout.tcacheMaxBins ==>
        InRange(p, p.cacheOrder[t][b]) && TcacheHead(mem, layout, p, tcache, p.cacheOrder[t][b], b)
  }

  ghost predicate ThreadFrame(mem: Mem, layout: Layout, libc: U64, thread: Thread, p: Process, t: nat)
    requires t < |p.cacheOrder| && |p.cacheOrder[t]| == layout.tcacheMaxBins
  {
    && thread.tp != 0
    && (layout.threadArena.Some? ==>
          exists arena :: TlsWord(mem, layout, libc, thread.tp, layout.threadArena.value, arena))
    && (if layout.hasTcache then
          exists tcache ::
            && TlsWord(mem, layout, libc, thread.tp, layout.tcacheValue, tcache)
            && TcacheFrame(mem, layout, p, tcache, t)
        else NothingCached(p, t))
  }

  /** Memory has, but for the chunks themselves, what a process has: arenas, heap_infos, bin heads, TLS blocks. */
  ghost predicate Frame(mem: Mem, layout: Layout, libc: U64, threads: seq<Thread>, p: Process)
    requires WellFormed(layout, |threads|, p) && layout.heapMaxSize > 0
  {
    && p.shares[0].address == (libc + layout.mainArenaValue) % TWO64
    && RingPath(mem, layout, p.shares[0].address, Addresses(p))
    && (forall a :: 0 <= a < |p.shares| ==> ShareFrame(mem, layout, libc, p, a))
    && if layout.tpOffReloc.None? then forall i :: 0 <= i < |p.blocks| ==> !p.blocks[i].fate.Cached?
       else forall t :: 0 <= t < |threads| ==> ThreadFrame(mem, layout, libc, threads[t], p, t)
  }

  /** The rest of memory is the frame of the process, outside its chunks. */
  ghost predicate Surrounds(rest: Mem, layout: Layout, libc: U64, threads: seq<Thread>, p: Process)
    requires WellFormed(layout, |threads|, p)
  {
    && rest.TopWordUnmapped() && layout.heapMaxSize > 0
    && (forall i :: 0 <= i < |p.blocks| ==> Continues(rest, p, i))
    && Frame(Outer(rest, p), layout, libc, threads, p)
  }

  /** `mem'` has all the words of `mem`, as they are, and the same segments. */
  ghost predicate Grows(mem: Mem, mem': Mem) {
    && (forall a: U64 :: mem.Read(a).Some? ==> mem'.Read(a) == mem.Read(a))
    && (forall a: U64 :: mem.SegmentStart(a) == mem'.SegmentStart(a))
  }

  lemma EncodeGrows(layout: Layout, threads: nat, rest: Mem, p: Process)
    requires WellFormed(layout, threads, p)
    ensures Grows(Outer(rest, p), Encode(layout, threads, rest, p))
  {
    hide Outside, SoundShare, Orders, SoundBlocks, Headers, Links;
    var outer, mem := Outer(rest, p), Encode(layout, threads, rest, p);
    forall a: U64 | outer.Read(a).Some?
      ensures mem.Read(a) == outer.Read(a)
    {
      ReadsRest(layout, threads, rest, p, a);
    }
  }

  lemma HeapFrameGrows(mem: Mem, mem': Mem, layout: Layout, p: Process, s: Share, k: nat, top: U64)
    requires Grows(mem, mem') && SharesOut(p, s) && k < |s.runs|
    requires HeapFrame(mem, layout, p, s, k, top)
    ensures HeapFrame(mem', layout, p, s, k, top)
  {
    hide ChunkSize, NonMainArena, Follows, Padding, BridgeWords, HeapList.InfoWords;
    assert InShare(s, k);
    var run := s.runs[k];
    PaddingGrows(mem, mem',
                 (run.heap.address + layout.heapInfoSize + if k == |s.runs| - 1 then layout.mainArenaSize else 0) % TWO64,
                 run.heap.regionStart);
    InfoGrows(mem, mem', layout, run.heap, if k == |s.runs| - 1 then 0 else s.runs[k + 1].heap.address);
    if k > 0 {
      BridgeGrows(mem, mem', p, run);
    }
  }

  lemma PaddingGrows(mem: Mem, mem': Mem, from: nat, start: U64)
    requires Grows(mem, mem') && Padding(mem, from, start)
    ensures Padding(mem', from, start)
  {
  }

  lemma InfoGrows(mem: Mem, mem': Mem, layout: Layout, h: HeapList.Heap, prev: U64)
    requires Grows(mem, mem') && HeapList.InfoWords(mem, layout, h.address, h.size, h.mprotectSize, prev)
    ensures HeapList.InfoWords(mem', layout, h.address, h.size, h.mprotectSize, prev)
  {
  }

  lemma BridgeGrows(mem: Mem, mem': Mem, p: Process, run: Run)
    requires Grows(mem, mem') && run.from <= run.to <= |p.blocks| && BridgeWords(mem, p, run)
    ensures BridgeWords(mem', p, run)
  {
    hide ChunkSize, NonMainArena;
  }

  lemma MainGrows(mem: Mem, mem': Mem, layout: Layout, libc: U64, p: Process, s: Share, base: U64, top: U64)
    requires Grows(mem, mem') && SharesOut(p, s) && HoldsMain(mem, layout, libc, p, s, base, top)
    ensures HoldsMain(mem', layout, libc, p, s, base, top)
  {
    hide Follows, Padding;
    if s.runs != [] {
      assert InShare(s, 0);
      PaddingGrows(mem, mem', s.runs[0].heap.address, s.runs[0].heap.regionStart);
    }
  }

  lemma RingGrows(mem: Mem, mem': Mem, layout: Layout, main: U64, path: seq<U64>)
    requires Grows(mem, mem') && RingPath(mem, layout, main, path)
    ensures RingPath(mem', layout, main, path)
  {
    forall i | 0 <= i < |path| - 1
      ensures RingStep(mem', layout, main, path, i)
    {
      assert RingStep(mem, layout, main, path, i);
    }
  }

  // ----- Flags keep the last chunk of a closed heap apart from its bridge -----

  lemma LastIsFlagged(layout: Layout, threads: nat, rest: Mem, p: Process, a: nat, k: nat)
    requires WellFormed(layout, threads, p) && 0 < a < |p.shares| && SoundShare(layout, p, a)
    requires k < |p.shares[a].runs| && InShare(p.shares[a], k)
    requires BridgeWords(Encode(layout, threads, rest, p), p, p.shares[a].runs[k])
    ensures LastIsListed(Encode(layout, threads, rest, p), p, p.shares[a].runs[k])
  {
    hide HeaderWord, ChunkSize, NonMainArena, Encode, Orders, SoundBlocks, BridgeWords;
    var run := p.shares[a].runs[k];
    if run.from < run.to {
      EndToEnd.SharesInOrder(layout, p, 0, a);
      RunsInShare(p, p.shares[a], k);
      ReadsHeader(layout, threads, rest, p, run.to - 1);
      HeaderReadsBack(layout, p, run.to - 1);
    }
  }

  lemma {:induction false} RunsInShare(p: Process, s: Share, k: nat)
    requires SharesOut(p, s) && k < |s.runs|
    ensures s.from <= s.runs[k].from
    decreases k
  {
    assert InShare(s, k);
    if k > 0 {
      RunsInShare(p, s, k - 1);
      assert InShare(s, k - 1);
    }
  }

  // ----- The theorem -----

  lemma EncodesShare(layout: Layout, libc: U64, threads: seq<Thread>, rest: Mem, p: Process, a: nat)
    requires WellFormed(layout, |threads|, p) && Surrounds(rest, layout, libc, threads, p) && a < |p.shares|
    ensures SoundShare(layout, p, a) && HoldsShare(Encode(layout, |threads|, rest, p), layout, libc, p, a)
  {
    hide Encode, Outer, SoundBlocks, Continues, HeapFrame, HoldsMain, RingPath, ThreadFrame, Orders, StoresChain, Grows;
    hide BridgeWords, LastIsListed, TopWords, FastbinHead;
    var outer, mem, s := Outer(rest, p), Encode(layout, |threads|, rest, p), p.shares[a];
    EncodeGrows(layout, |threads|, rest, p);
    assert SoundShare(layout, p, a) && ShareFrame(outer, layout, libc, p, a);
    if a == 0 {
      var base, top :| HoldsMain(outer, layout, libc, p, s, base, top);
      MainGrows(outer, mem, layout, libc, p, s, base, top);
    } else {
      var top :| TopWords(outer, layout, s, top)
                 && forall k :: 0 <= k < |s.runs| ==> HeapFrame(outer, layout, p, s, k, top);
      TopGrows(outer, mem, layout, s, top);
      forall k | 0 <= k < |s.runs|
        ensures HoldsHeap(mem, layout, p, s, k, top)
      {
        HeapFrameGrows(outer, mem, layout, p, s, k, top);
        HeapEnds(mem, layout, p, s, k, top);
        if k > 0 {
          LastIsFlagged(layout, |threads|, rest, p, a, k);
        }
      }
      assert HoldsSecondary(mem, layout, p, s, top);
    }
    forall f: U32 | f < layout.fastbinCount
      ensures HoldsFastbin(mem, layout, p, s.address, s.fastOrder[f], f)
    {
      EncodesFastbin(layout, libc, threads, rest, p, a, f);
    }
  }

  lemma HeapEnds(mem: Mem, layout: Layout, p: Process, s: Share, k: nat, top: U64)
    requires SharesOut(p, s) && k < |s.runs| && HeapFrame(mem, layout, p, s, k, top)
    ensures InShare(s, k) && (k > 0 ==> BridgeWords(mem, p, s.runs[k]))
  {
    hide BridgeWords, Follows;
  }

  lemma TopGrows(mem: Mem, mem': Mem, layout: Layout, s: Share, top: U64)
    requires Grows(mem, mem') && layout.heapMaxSize > 0 && TopWords(mem, layout, s, top)
    ensures TopWords(mem', layout, s, top)
  {
  }

  lemma EncodesFastbin(layout: Layout, libc: U64, threads: seq<Thread>, rest: Mem, p: Process, a: nat, f: U32)
    requires WellFormed(layout, |threads|, p) && a < |p.shares| && f < layout.fastbinCount
    requires SoundShare(layout, p, a) && layout.heapMaxSize > 0
    requires ShareFrame(Outer(rest, p), layout, libc, p, a)
    ensures HoldsFastbin(Encode(layout, |threads|, rest, p), layout, p, p.shares[a].address, p.shares[a].fastOrder[f], f)
  {
    hide Encode, Outer, SoundBlocks, HeapFrame, HoldsMain, StoresChain;
    EncodeGrows(layout, |threads|, rest, p);
    var order := p.shares[a].fastOrder[f];
    assert Orders(p, order, Fast(a, f)) && FastbinHead(Outer(rest, p), layout, p, p.shares[a].address, order, f);
    EncodesChain(layout, |threads|, rest, p, Fast(a, f));
  }

  lemma EncodesThread(layout: Layout, libc: U64, threads: seq<Thread>, rest: Mem, p: Process, t: nat)
    requires WellFormed(layout, |threads|, p) && t < |threads|
    requires ThreadFrame(Outer(rest, p), layout, libc, threads[t], p, t)
    ensures HoldsThread(Encode(layout, |threads|, rest, p), layout, libc, threads[t], p, t)
  {
    hide Encode, Outer, SoundBlocks, SoundShare, StoresChain, TlsWord, Grows, TcacheHead;
    var outer, mem, thread := Outer(rest, p), Encode(layout, |threads|, rest, p), threads[t];
    EncodeGrows(layout, |threads|, rest, p);
    if layout.threadArena.Some? {
      var arena :| TlsWord(outer, layout, libc, thread.tp, layout.threadArena.value, arena);
      TlsGrows(outer, mem, layout, libc, thread.tp, layout.threadArena.value, arena);
    }
    if layout.hasTcache {
      var tcache :| TlsWord(outer, layout, libc, thread.tp, layout.tcacheValue, tcache)
                    && TcacheFrame(outer, layout, p, tcache, t);
      TlsGrows(outer, mem, layout, libc, thread.tp, layout.tcacheValue, tcache);
      if tcache != 0 {
        forall b: U32 | b < layout.tcacheMaxBins
          ensures HoldsTcacheBin(mem, layout, p, tcache, p.cacheOrder[t][b], b)
        {
          HeadGrows(outer, mem, layout, p, tcache, p.cacheOrder[t][b], b);
          EncodesChain(layout, |threads|, rest, p, Cached(t, b));
        }
      }
      assert HoldsTcache(mem, layout, p, tcache, t);
    }
  }

  lemma TlsGrows(mem: Mem, mem': Mem, layout: Layout, libc: U64, tp: U64, offset: U64, value: U64)
    requires Grows(mem, mem') && TlsWord(mem, layout, libc, tp, offset, value)
    ensures TlsWord(mem', layout, libc, tp, offset, value)
  {
  }

  lemma HeadGrows(mem: Mem, mem': Mem, layout: Layout, p: Process, tcache: U64, order: seq<nat>, b: U32)
    requires Grows(mem, mem') && InRange(p, order) && TcacheHead(mem, layout, p, tcache, order, b)
    ensures TcacheHead(mem', layout, p, tcache, order, b)
  {
  }

  /** Any well-formed heap, written into memory that surrounds it, is represented there. */
  lemma EncodeRepresents(layout: Layout, libc: U64, threads: seq<Thread>, rest: Mem, p: Process)
    requires WellFormed(layout, |threads|, p) && Surrounds(rest, layout, libc, threads, p)
    ensures Represents(Encode(layout, |threads|, rest, p), layout, libc, threads, p)
  {
    hide Encode, Outer, SoundBlocks, SoundShare, Continues, RingPath, HoldsThread, HoldsChunk, ThreadFrame, Grows;
    hide Orders, HoldsShare, ShareFrame;
    var mem := Encode(layout, |threads|, rest, p);
    TopStaysUnmapped(layout, |threads|, rest, p);
    EncodeGrows(layout, |threads|, rest, p);
    RingGrows(Outer(rest, p), mem, layout, p.shares[0].address, Addresses(p));
    forall i | 0 <= i < |p.blocks|
      ensures HoldsChunk(mem, p.blocks[i])
    {
      EncodesChunk(layout, |threads|, rest, p, i);
    }
    forall a | 0 <= a < |p.shares|
      ensures SoundShare(layout, p, a) && HoldsShare(mem, layout, libc, p, a)
    {
      EncodesShare(layout, libc, threads, rest, p, a);
    }
    if layout.tpOffReloc.Some? {
      forall t | 0 <= t < |threads|
        ensures HoldsThread(mem, layout, libc, threads[t], p, t)
      {
        EncodesThread(layout, libc, threads, rest, p, t);
      }
    }
  }

  lemma TopStaysUnmapped(layout: Layout, threads: nat, rest: Mem, p: Process)
    requires WellFormed(layout, threads, p) && rest.TopWordUnmapped()
    ensures Encode(layout, threads, rest, p).TopWordUnmapped()
  {
    hide HeaderWord, LinkWord, SoundShare, Orders;
    var mem := Encode(layout, threads, rest, p);
    forall a | a in mem.words
      ensures a + WORD < TWO64
    {
      forall i | 0 <= i < |p.blocks|
        ensures p.blocks[i].at + 16 < TWO64 && UserOf(p.blocks[i]) + 8 < TWO64
      {
        assert SoundBlock(layout, p.blocks[i]);
        UserIs(layout, p.blocks[i]);
      }
    }
  }

  /** Encoding any abstract heap and analysing the memory gives back the simple count, with no problem. */
  lemma EncodeThenAnalyze(layout: Layout, libc: U64, threads: seq<Thread>, rest: Mem, p: Process)
    requires WellFormed(layout, |threads|, p) && Surrounds(rest, layout, libc, threads, p)
    ensures Encode(layout, |threads|, rest, p).TopWordUnmapped()
    ensures var outcome := Analyze(Encode(layout, |threads|, rest, p), layout, libc, threads);
            && outcome.Ok? && outcome.value.problems == [] && |outcome.value.reports| == |p.shares|
            && forall a :: 0 <= a < |p.shares| ==>
                 SoundShare(layout, p, a) && ReportsShare(layout, threads, p, a, outcome.value.reports[a])
  {
    hide Represents, Encode, Surrounds, ReportsShare;
    EncodeRepresents(layout, libc, threads, rest, p);
    EndToEnd.Basics(Encode(layout, |threads|, rest, p), layout, libc, threads, p);
    EndToEnd.EndToEnd(Encode(layout, |threads|, rest, p), layout, libc, threads, p);
  }
}
