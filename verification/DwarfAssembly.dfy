/** Which offset each name stands for, in an assembled layout and in the layout the walkers then use. */
module DwarfAssembly {
  import opened Words
  import opened Memory
  import opened Tls
  import opened Dwarf
  import opened DwarfGeometry

  // ----- What each structure is accepted for -----

  /** The structure is a malloc_state with these offsets, each that of the one member of its name. */
  ghost predicate IsMallocState(s: Structure, word: U64, l: MallocStateLayout)
    requires word > 0
  {
    SoundMallocState(l, word) && exists fastbins, top, next :: MallocStateMembers(s, word, l, fastbins, top, next)
  }

  /** There is no member of that name, or a sole one, an unsigned word at that offset. */
  ghost predicate OptionalField(s: Structure, name: string, word: U64, offset: Option<U64>)
    requires word > 0
  {
    match offset
    case None => forall i :: 0 <= i < |s.members| ==> s.members[i].name != name
    case Some(o) => exists m :: Sole(s.members, name, m) && WordField(m, s.byteSize, word, Unsigned) && m.offset == o
  }

  ghost predicate IsMallocPar(s: Structure, word: U64, l: MallocParLayout)
    requires word > 0
  {
    && (exists m :: Sole(s.members, "sbrk_base", m) && WordField(m, s.byteSize, word, Pointer) && m.offset == l.sbrkBase)
    && OptionalField(s, "arena_max", word, l.arenaMax)
    && OptionalField(s, "tcache_bins", word, l.tcacheBins)
  }

  ghost predicate IsHeapInfo(s: Structure, word: U64, l: HeapInfoLayout)
    requires word > 0
  {
    && SoundHeapInfo(l, word)
    && exists arPtr, prev, size, mprotectSize :: HeapInfoMembers(s, word, l, arPtr, prev, size, mprotectSize)
  }

  ghost predicate IsTcache(s: Structure, word: U64, l: TcacheLayout)
    requires word > 0
  {
    exists counts, width, entries :: TcacheMembers(s, word, l, counts, width, entries)
  }

  lemma OptionalExactly(s: Structure, name: string, word: U64, offset: Option<U64>)
    requires word > 0
    ensures OptionalWordMember(s, name, word) == Ok(offset) <==> OptionalField(s, name, word, offset)
  {
    hide Named, Sole, WordMember, WordField;
    NamedNone(s.members, name);
    forall m: Member
      ensures |Named(s.members, name)| == 1 && Named(s.members, name)[0] == m <==> Sole(s.members, name, m)
      ensures WordMember(m, s.byteSize, word, Unsigned).Pass? <==> WordField(m, s.byteSize, word, Unsigned)
    {
      NamedSole(s.members, name, m);
      WordMemberExactly(m, s.byteSize, word, Unsigned);
    }
  }

  /** A malloc_par is accepted exactly when `sbrk_base` is a sole pointer and the optional members are well formed. */
  lemma MallocParAcceptedExactly(s: Structure, word: U64, l: MallocParLayout)
    requires word > 0
    ensures ValidateMallocPar(s, word) == Ok(l) <==> IsMallocPar(s, word, l)
  {
    hide RequiredMember, OptionalWordMember, OptionalField, Sole, WordMember, WordField;
    forall m: Member
      ensures RequiredMember(s, "sbrk_base") == Ok(m) <==> Sole(s.members, "sbrk_base", m)
      ensures WordMember(m, s.byteSize, word, Pointer).Pass? <==> WordField(m, s.byteSize, word, Pointer)
    {
      RequiredIsSole(s, "sbrk_base", m);
      WordMemberExactly(m, s.byteSize, word, Pointer);
    }
    forall offset: Option<U64>
      ensures OptionalWordMember(s, "arena_max", word) == Ok(offset) <==> OptionalField(s, "arena_max", word, offset)
      ensures OptionalWordMember(s, "tcache_bins", word) == Ok(offset) <==> OptionalField(s, "tcache_bins", word, offset)
    {
      OptionalExactly(s, "arena_max", word, offset);
      OptionalExactly(s, "tcache_bins", word, offset);
    }
  }

  // ----- The one layout of each target -----

  ghost predicate OneMallocState(index: TypeIndex, word: U64, l: MallocStateLayout)
    requires word > 0
  {
    && MallocState in index.candidates
    && (exists s :: s in index.candidates[MallocState] && IsMallocState(s, word, l))
    && (forall s, other :: s in index.candidates[MallocState] && IsMallocState(s, word, other) ==> other == l)
  }

  ghost predicate OneMallocPar(index: TypeIndex, word: U64, l: MallocParLayout)
    requires word > 0
  {
    && MallocPar in index.candidates
    && (exists s :: s in index.candidates[MallocPar] && IsMallocPar(s, word, l))
    && (forall s, other :: s in index.candidates[MallocPar] && IsMallocPar(s, word, other) ==> other == l)
  }

  ghost predicate OneHeapInfo(index: TypeIndex, word: U64, l: HeapInfoLayout)
    requires word > 0
  {
    && HeapInfo in index.candidates
    && (exists s :: s in index.candidates[HeapInfo] && IsHeapInfo(s, word, l))
    && (forall s, other :: s in index.candidates[HeapInfo] && IsHeapInfo(s, word, other) ==> other == l)
  }

  ghost predicate OneTcache(index: TypeIndex, word: U64, l: TcacheLayout)
    requires word > 0
  {
    && Tcache in index.candidates
    && (exists s :: s in index.candidates[Tcache] && IsTcache(s, word, l))
    && (forall s, other :: s in index.candidates[Tcache] && IsTcache(s, word, other) ==> other == l)
  }

  lemma SelectsMallocState(index: TypeIndex, word: U64, l: MallocStateLayout)
    requires word in {4, 8}
    ensures Selected(index, MallocState, MallocStateValidator(word)) == Ok(l) <==> OneMallocState(index, word, l)
  {
    hide ValidateMallocState, Selected, IsMallocState;
    forall s, other
      ensures MallocStateValidator(word)(s) == Ok(other) <==> IsMallocState(s, word, other)
    {
      StateAccepted(s, word, other);
    }
    SelectsTheOnlyLayout(index, MallocState, MallocStateValidator(word), l);
    AttainsEach(index, MallocState, MallocStateValidator(word));
  }

  lemma StateAccepted(s: Structure, word: U64, l: MallocStateLayout)
    requires word in {4, 8}
    ensures ValidateMallocState(s, word) == Ok(l) <==> IsMallocState(s, word, l)
  {
    hide ValidateMallocState;
    MallocStateAcceptedExactly(s, word, l);
  }

  lemma SelectsMallocPar(index: TypeIndex, word: U64, l: MallocParLayout)
    requires word in {4, 8}
    ensures Selected(index, MallocPar, MallocParValidator(word)) == Ok(l) <==> OneMallocPar(index, word, l)
  {
    hide ValidateMallocPar, Selected, IsMallocPar;
    forall s, other
      ensures MallocParValidator(word)(s) == Ok(other) <==> IsMallocPar(s, word, other)
    {
      MallocParAcceptedExactly(s, word, other);
    }
    SelectsTheOnlyLayout(index, MallocPar, MallocParValidator(word), l);
    AttainsEach(index, MallocPar, MallocParValidator(word));
  }

  lemma SelectsHeapInfo(index: TypeIndex, word: U64, l: HeapInfoLayout)
    requires word in {4, 8}
    ensures Selected(index, HeapInfo, HeapInfoValidator(word)) == Ok(l) <==> OneHeapInfo(index, word, l)
  {
    hide ValidateHeapInfo, Selected, IsHeapInfo;
    forall s, other
      ensures HeapInfoValidator(word)(s) == Ok(other) <==> IsHeapInfo(s, word, other)
    {
      HeapInfoAccepted(s, word, other);
    }
    SelectsTheOnlyLayout(index, HeapInfo, HeapInfoValidator(word), l);
    AttainsEach(index, HeapInfo, HeapInfoValidator(word));
  }

  lemma HeapInfoAccepted(s: Structure, word: U64, l: HeapInfoLayout)
    requires word in {4, 8}
    ensures ValidateHeapInfo(s, word) == Ok(l) <==> IsHeapInfo(s, word, l)
  {
    hide ValidateHeapInfo;
    HeapInfoAcceptedExactly(s, word, l);
  }

  lemma SelectsTcache(index: TypeIndex, word: U64, l: TcacheLayout)
    requires word in {4, 8}
    ensures Selected(index, Tcache, TcacheValidator(word)) == Ok(l) <==> OneTcache(index, word, l)
  {
    hide ValidateTcache, Selected, IsTcache;
    forall s, other
      ensures TcacheValidator(word)(s) == Ok(other) <==> IsTcache(s, word, other)
    {
      TcacheAccepted(s, word, other);
    }
    SelectsTheOnlyLayout(index, Tcache, TcacheValidator(word), l);
    AttainsEach(index, Tcache, TcacheValidator(word));
  }

  lemma TcacheAccepted(s: Structure, word: U64, l: TcacheLayout)
    requires word in {4, 8}
    ensures ValidateTcache(s, word) == Ok(l) <==> IsTcache(s, word, l)
  {
    hide ValidateTcache;
    TcacheAcceptedExactly(s, word, l);
  }

  lemma AttainsEach<T>(index: TypeIndex, target: Target, validate: Validator<T>)
    ensures target in index.candidates ==>
              forall s, v :: s in index.candidates[target] && validate(s) == Ok(v) ==>
                Attains(index.candidates[target], validate, v)
  {
  }

  // ----- The assembled layout -----

  function Wide(offset: Option<U32>): Option<U64> {
    match offset
    case None => None
    case Some(o) => Some(o)
  }

  /** Each target has one layout, and `d` has the offsets of the members by name. */
  ghost predicate Assembles(index: TypeIndex, word: U64, requireTcache: bool, d: DwarfLayout) {
    && word in {4, 8}
    && OneMallocState(index, word,
         MallocStateLayout(size := d.mallocStateSize, fastbins := d.fastbinArrayOffset, fastbinCount := d.fastbinCount,
                           top := d.topOffset, next := d.nextOffset))
    && OneMallocPar(index, word,
         MallocParLayout(arenaMax := Wide(d.arenaMaxOffset), sbrkBase := d.sbrkBaseOffset,
                         tcacheBins := Wide(d.tcacheBinsOffset)))
    && OneHeapInfo(index, word,
         HeapInfoLayout(size := d.heapInfoSize, arPtr := d.heapInfoArPtrOffset, prev := d.heapInfoPrevOffset,
                        currentSize := d.heapInfoSizeOffset, mprotectSize := d.heapInfoMprotectSizeOffset))
    && if requireTcache then
         && d.tcacheEntriesOffset.Some? && d.tcacheMaxBins.Some?
         && OneTcache(index, word, TcacheLayout(entries := d.tcacheEntriesOffset.value, bins := d.tcacheMaxBins.value))
       else d.tcacheEntriesOffset == None && d.tcacheMaxBins == None
  }

  /**
   * A layout is assembled exactly when each target has one distinct valid layout, and its fields are the offsets
   * of the members they are named after, all within 32 bits.
   */
  lemma AssembledExactly(index: TypeIndex, word: U64, requireTcache: bool, d: DwarfLayout)
    ensures AssembleLayout(index, word, requireTcache) == Ok(d) <==> Assembles(index, word, requireTcache, d)
  {
    hide Selected, OneMallocState, OneMallocPar, OneHeapInfo, OneTcache;
    if word in {4, 8} {
      forall l
        ensures Selected(index, MallocState, MallocStateValidator(word)) == Ok(l) <==> OneMallocState(index, word, l)
      {
        SelectsMallocState(index, word, l);
      }
      forall l
        ensures Selected(index, MallocPar, MallocParValidator(word)) == Ok(l) <==> OneMallocPar(index, word, l)
      {
        SelectsMallocPar(index, word, l);
      }
      forall l
        ensures Selected(index, HeapInfo, HeapInfoValidator(word)) == Ok(l) <==> OneHeapInfo(index, word, l)
      {
        SelectsHeapInfo(index, word, l);
      }
      forall l
        ensures Selected(index, Tcache, TcacheValidator(word)) == Ok(l) <==> OneTcache(index, word, l)
      {
        SelectsTcache(index, word, l);
      }
    }
  }

  /** The walkers then use, under each name, the offset of the member of that name; all else stays as it was. */
  lemma AppliedOffsets(index: TypeIndex, word: U64, requireTcache: bool, l: Layout)
    requires AssembleLayout(index, word, requireTcache).Ok?
    ensures word in {4, 8}
    ensures var l' := ApplyDwarf(l, AssembleLayout(index, word, requireTcache).value);
            && OneMallocState(index, word,
                 MallocStateLayout(size := l'.mainArenaSize, fastbins := l'.fastbinArrayOffset,
                                   fastbinCount := l'.fastbinCount, top := l'.topOffset, next := l'.nextOffset))
            && (exists arenaMax, tcacheBins ::
                  OneMallocPar(index, word, MallocParLayout(arenaMax, l'.sbrkBaseOffset, tcacheBins)))
            && (exists arPtr ::
                  OneHeapInfo(index, word,
                    HeapInfoLayout(size := l'.heapInfoSize, arPtr := arPtr, prev := l'.heapInfoPrevOffset,
                                   currentSize := l'.heapInfoSizeOffset,
                                   mprotectSize := l'.heapInfoMprotectSizeOffset)))
            && (if requireTcache then
                  OneTcache(index, word, TcacheLayout(entries := l'.tcacheEntriesOffset, bins := l'.tcacheMaxBins))
                else l'.tcacheEntriesOffset == l.tcacheEntriesOffset && l'.tcacheMaxBins == l.tcacheMaxBins)
            && l'.heapMaxSize == l.heapMaxSize
            && l'.mainArenaValue == l.mainArenaValue && l'.mpValue == l.mpValue && l'.tcacheValue == l.tcacheValue
            && l'.threadArena == l.threadArena && l'.tpOffReloc == l.tpOffReloc
            && l'.hasTcache == l.hasTcache && l'.hasSafeLinking == l.hasSafeLinking
  {
    hide AssembleLayout, OneMallocState, OneMallocPar, OneHeapInfo, OneTcache;
    var d := AssembleLayout(index, word, requireTcache).value;
    AssembledExactly(index, word, requireTcache, d);
    var par := MallocParLayout(Wide(d.arenaMaxOffset), d.sbrkBaseOffset, Wide(d.tcacheBinsOffset));
    assert OneMallocPar(index, word, par);
  }

  /** Every tcache slot the walkers read lies inside the tcache structure, at its bin's place in `entries`. */
  lemma EntrySlotsInside(index: TypeIndex, l: Layout, base: U64, bin: U32)
    requires AssembleLayout(index, WORD, true).Ok?
    requires bin < ApplyDwarf(l, AssembleLayout(index, WORD, true).value).tcacheMaxBins
    ensures var l' := ApplyDwarf(l, AssembleLayout(index, WORD, true).value);
            && EntryAddress(l', base, bin) == (base + l'.tcacheEntriesOffset + 8 * bin) % TWO64
            && exists s, entries ::
                 && s in index.candidates[Tcache] && Sole(s.members, "entries", entries)
                 && l'.tcacheEntriesOffset == entries.offset
                 && l'.tcacheEntriesOffset + 8 * bin + 8 <= s.byteSize
  {
    hide AssembleLayout;
    var l' := ApplyDwarf(l, AssembleLayout(index, WORD, true).value);
    AppliedOffsets(index, WORD, true, l);
    var layout := TcacheLayout(entries := l'.tcacheEntriesOffset, bins := l'.tcacheMaxBins);
    var s :| s in index.candidates[Tcache] && IsTcache(s, WORD, layout);
    var counts, width, entries :| TcacheMembers(s, WORD, layout, counts, width, entries);
    SlotsInField(entries, s.byteSize, l'.tcacheMaxBins, bin);
  }

  lemma SlotsInField(entries: Member, structSize: U64, bins: U64, bin: nat)
    requires ArrayField(entries, structSize, Pointer, WORD, bins) && bin < bins
    ensures entries.offset + 8 * bin + 8 <= structSize
  {
  }
}
