/** Validating the malloc structures that DWARF describes, and choosing the layout to use. */
module Dwarf {
  import opened Words
  import opened Memory

  const MAX_FIELD_OFFSET: U64 := 0x10_0000
  const MAX_ARRAY_BYTES: U64 := 0x10_0000
  const MAX_FASTBINS: U64 := 256
  const MAX_TCACHE_BINS: U64 := 1024

  datatype DwarfError = Unavailable | Unsupported | Limit | Invalid | Parse

  datatype TypeKind = Pointer | Unsigned | Signed | Array | Struct | Other

  datatype TypeInfo = TypeInfo(
    kind: TypeKind,
    byteSize: Option<U64>,
    elementKind: Option<TypeKind>,
    elementSize: Option<U64>,
    elementCount: Option<U64>)

  datatype Member = Member(name: string, offset: U64, ty: TypeInfo)

  datatype Structure = Structure(byteSize: U64, members: seq<Member>)

  datatype Target = MallocState | MallocPar | HeapInfo | Tcache

  datatype TypeIndex = TypeIndex(candidates: map<Target, seq<Structure>>, errors: map<Target, DwarfError>)

  // ----- Checks on one member -----

  function Require(condition: bool, error: DwarfError): Check<DwarfError> {
    if condition then Pass else Fail(error)
  }

  function Named(members: seq<Member>, name: string): seq<Member> {
    if members == [] then []
    else (if members[0].name == name then [members[0]] else []) + Named(members[1..], name)
  }

  function RequiredMember(s: Structure, name: string): Result<Member, DwarfError> {
    var matches := Named(s.members, name);
    if |matches| == 1 then Ok(matches[0]) else Err(Invalid)
  }

  function FieldRange(m: Member, structSize: U64): Check<DwarfError> {
    match m.ty.byteSize
    case None => Fail(Invalid)
    case Some(size) =>
      match CheckedAdd(m.offset, size)
      case None => Fail(Limit)
      case Some(end) => Require(!(size == 0 || m.offset > MAX_FIELD_OFFSET || end > structSize), Invalid)
  }

  function WordMember(m: Member, structSize: U64, word: U64, kind: TypeKind): Check<DwarfError>
    requires word > 0
  {
    var range := FieldRange(m, structSize);
    if range.Fail? then range
    else Require(m.ty.kind == kind && m.ty.byteSize == Some(word) && m.offset % word == 0, Invalid)
  }

  /** The element width and count of an array member. */
  function ArrayShape(m: Member, structSize: U64, kind: TypeKind, expectedWidth: Option<U64>)
    : Result<(U64, U64), DwarfError>
  {
    var ty := m.ty;
    :- FieldRange(m, structSize);
    :- Require(ty.kind == Array && ty.elementKind == Some(kind), Invalid);
    :- Require(ty.elementSize.Some? && ty.elementCount.Some?, Invalid);
    var width, count := ty.elementSize.value, ty.elementCount.value;
    :- Require(width != 0 && count != 0 && (expectedWidth.Some? ==> expectedWidth.value == width), Invalid);
    var bytes := CheckedMul(width, count);
    :- Require(bytes.Some?, Limit);
    :- Require(bytes.value <= MAX_ARRAY_BYTES && ty.byteSize == bytes, Invalid);
    Ok((width, count))
  }

  function PointerArray(m: Member, structSize: U64, word: U64): Result<(U64, U64), DwarfError> {
    ArrayShape(m, structSize, Pointer, Some(word))
  }

  function IntegerArray(m: Member, structSize: U64): Result<(U64, U64), DwarfError> {
    if m.ty.elementKind == Some(Unsigned) || m.ty.elementKind == Some(Signed)
    then ArrayShape(m, structSize, m.ty.elementKind.value, None)
    else Err(Invalid)
  }

  function SizeOf(m: Member): U64 {
    match m.ty.byteSize
    case None => 0
    case Some(size) => size
  }

  predicate Overlap(left: Member, right: Member) {
    left.offset < SaturatingAdd(right.offset, SizeOf(right)) && right.offset < SaturatingAdd(left.offset, SizeOf(left))
  }

  /** No two of the members overlap. */
  predicate NoOverlap(members: seq<Member>) {
    forall i, j :: 0 <= i < j < |members| ==> !Overlap(members[i], members[j])
  }

  // ----- Checks on one structure -----

  datatype MallocStateLayout = MallocStateLayout(size: U64, fastbins: U64, fastbinCount: U64, top: U64, next: U64)

  datatype MallocParLayout = MallocParLayout(arenaMax: Option<U64>, sbrkBase: U64, tcacheBins: Option<U64>)

  datatype HeapInfoLayout = HeapInfoLayout(size: U64, arPtr: U64, prev: U64, currentSize: U64, mprotectSize: U64)

  datatype TcacheLayout = TcacheLayout(entries: U64, bins: U64)

  function ValidateMallocState(s: Structure, word: U64): Result<MallocStateLayout, DwarfError>
    requires word > 0
  {
    var fastbins :- RequiredMember(s, "fastbinsY");
    var shape :- PointerArray(fastbins, s.byteSize, word);
    var count := shape.1;
    :- Require(!(count == 0 || count > MAX_FASTBINS), Invalid);
    var top :- RequiredMember(s, "top");
    :- WordMember(top, s.byteSize, word, Pointer);
    var next :- RequiredMember(s, "next");
    :- WordMember(next, s.byteSize, word, Pointer);
    :- Require(NoOverlap([fastbins, top, next]), Invalid);
    Ok(MallocStateLayout(s.byteSize, fastbins.offset, count, top.offset, next.offset))
  }

  function OptionalWordMember(s: Structure, name: string, word: U64): Result<Option<U64>, DwarfError>
    requires word > 0
  {
    var matches := Named(s.members, name);
    if matches == [] then Ok(None)
    else if |matches| == 1 then
      :- WordMember(matches[0], s.byteSize, word, Unsigned);
      Ok(Some(matches[0].offset))
    else Err(Invalid)
  }

  function ValidateMallocPar(s: Structure, word: U64): Result<MallocParLayout, DwarfError>
    requires word > 0
  {
    var sbrkBase :- RequiredMember(s, "sbrk_base");
    :- WordMember(sbrkBase, s.byteSize, word, Pointer);
    var arenaMax :- OptionalWordMember(s, "arena_max", word);
    var tcacheBins :- OptionalWordMember(s, "tcache_bins", word);
    Ok(MallocParLayout(arenaMax, sbrkBase.offset, tcacheBins))
  }

  function ValidateHeapInfo(s: Structure, word: U64): Result<HeapInfoLayout, DwarfError>
    requires word > 0
  {
    var arPtr :- RequiredMember(s, "ar_ptr");
    :- WordMember(arPtr, s.byteSize, word, Pointer);
    var prev :- RequiredMember(s, "prev");
    :- WordMember(prev, s.byteSize, word, Pointer);
    var size :- RequiredMember(s, "size");
    :- WordMember(size, s.byteSize, word, Unsigned);
    var mprotectSize :- RequiredMember(s, "mprotect_size");
    :- WordMember(mprotectSize, s.byteSize, word, Unsigned);
    :- Require(NoOverlap([arPtr, prev, size, mprotectSize]), Invalid);
    Ok(HeapInfoLayout(s.byteSize, arPtr.offset, prev.offset, size.offset, mprotectSize.offset))
  }

  function ValidateTcache(s: Structure, word: U64): Result<TcacheLayout, DwarfError> {
    var counts :- RequiredMember(s, "counts");
    var countShape :- IntegerArray(counts, s.byteSize);
    :- Require(countShape.0 in {1, 2, 4, 8}, Invalid);
    var entries :- RequiredMember(s, "entries");
    var entryShape :- PointerArray(entries, s.byteSize, word);
    :- Require(!(countShape.1 == 0 || countShape.1 != entryShape.1 || entryShape.1 > MAX_TCACHE_BINS), Invalid);
    :- Require(NoOverlap([counts, entries]), Invalid);
    Ok(TcacheLayout(entries.offset, entryShape.1))
  }

  // ----- Selecting among candidates -----

  type Validator<T> = Structure -> Result<T, DwarfError>

  /** The distinct valid layouts, in order of first appearance. */
  function Valid<T(==)>(candidates: seq<Structure>, validate: Validator<T>): seq<T> {
    if candidates == [] then []
    else
      var before := Valid(candidates[..|candidates| - 1], validate);
      match validate(candidates[|candidates| - 1])
      case Err(_) => before
      case Ok(value) => if value in before then before else before + [value]
  }

  function FirstError<T>(candidates: seq<Structure>, validate: Validator<T>): Option<DwarfError> {
    if candidates == [] then None
    else
      var before := FirstError(candidates[..|candidates| - 1], validate);
      match validate(candidates[|candidates| - 1])
      case Ok(_) => before
      case Err(error) => if before.Some? then before else Some(error)
  }

  function Selected<T(==)>(index: TypeIndex, target: Target, validate: Validator<T>): Result<T, DwarfError> {
    if target !in index.candidates then Err(if target in index.errors then index.errors[target] else Invalid)
    else
      var valid := Valid(index.candidates[target], validate);
      if |valid| == 1 then Ok(valid[0])
      else if |valid| > 1 then Err(Invalid)
      else
        match FirstError(index.candidates[target], validate)
        case Some(error) => Err(error)
        case None => Err(Invalid)
  }

  method Select<T(==)>(index: TypeIndex, target: Target, validate: Validator<T>) returns (r: Result<T, DwarfError>)
    ensures r == Selected(index, target, validate)
  {
    if target !in index.candidates {
      return Err(if target in index.errors then index.errors[target] else Invalid);
    }
    var candidates := index.candidates[target];
    var valid: seq<T> := [];
    var firstError: Option<DwarfError> := None;
    for i := 0 to |candidates|
      invariant valid == Valid(candidates[..i], validate)
      invariant firstError == FirstError(candidates[..i], validate)
    {
      assert candidates[..i + 1][..i] == candidates[..i];
      match validate(candidates[i])
      case Ok(value) =>
        if value !in valid {
          valid := valid + [value];
        }
      case Err(error) =>
        if firstError.None? {
          firstError := Some(error);
        }
    }
    assert candidates[..|candidates|] == candidates;
    if |valid| == 1 {
      r := Ok(valid[0]);
    } else if |valid| == 0 {
      r := Err(if firstError.Some? then firstError.value else Invalid);
    } else {
      r := Err(Invalid);
    }
  }

  // ----- The complete layout -----

  datatype DwarfLayout = DwarfLayout(
    mallocStateSize: U32,
    fastbinArrayOffset: U32,
    fastbinCount: U32,
    topOffset: U32,
    nextOffset: U32,
    arenaMaxOffset: Option<U32>,
    sbrkBaseOffset: U32,
    tcacheBinsOffset: Option<U32>,
    heapInfoSize: U32,
    heapInfoArPtrOffset: U32,
    heapInfoPrevOffset: U32,
    heapInfoSizeOffset: U32,
    heapInfoMprotectSizeOffset: U32,
    tcacheEntriesOffset: Option<U32>,
    tcacheMaxBins: Option<U32>)

  function CheckedU32(value: U64): Result<U32, DwarfError> {
    if value < 0x1_0000_0000 then Ok(value) else Err(Invalid)
  }

  function CheckedOption(value: Option<U64>): Result<Option<U32>, DwarfError> {
    match value
    case None => Ok(None)
    case Some(v) =>
      var narrow :- CheckedU32(v);
      Ok(Some(narrow))
  }

  function MallocStateValidator(word: U64): Validator<MallocStateLayout>
    requires word > 0
  {
    (s: Structure) => ValidateMallocState(s, word)
  }

  function MallocParValidator(word: U64): Validator<MallocParLayout>
    requires word > 0
  {
    (s: Structure) => ValidateMallocPar(s, word)
  }

  function HeapInfoValidator(word: U64): Validator<HeapInfoLayout>
    requires word > 0
  {
    (s: Structure) => ValidateHeapInfo(s, word)
  }

  function TcacheValidator(word: U64): Validator<TcacheLayout> {
    (s: Structure) => ValidateTcache(s, word)
  }

  function SelectTcache(index: TypeIndex, word: U64, require': bool): Result<Option<TcacheLayout>, DwarfError> {
    if !require' then Ok(None)
    else
      var tcache :- Selected(index, Tcache, TcacheValidator(word));
      Ok(Some(tcache))
  }

  function AssembleLayout(index: TypeIndex, word: U64, requireTcache: bool): Result<DwarfLayout, DwarfError> {
    if word != 4 && word != 8 then Err(Invalid)
    else
      var state :- Selected(index, MallocState, MallocStateValidator(word));
      var par :- Selected(index, MallocPar, MallocParValidator(word));
      var heap :- Selected(index, HeapInfo, HeapInfoValidator(word));
      var tcache :- SelectTcache(index, word, requireTcache);
      var stateSize :- CheckedU32(state.size);
      var fastbins :- CheckedU32(state.fastbins);
      var fastbinCount :- CheckedU32(state.fastbinCount);
      var top :- CheckedU32(state.top);
      var next :- CheckedU32(state.next);
      var arenaMax :- CheckedOption(par.arenaMax);
      var sbrkBase :- CheckedU32(par.sbrkBase);
      var tcacheBins :- CheckedOption(par.tcacheBins);
      var heapSize :- CheckedU32(heap.size);
      var arPtr :- CheckedU32(heap.arPtr);
      var prev :- CheckedU32(heap.prev);
      var currentSize :- CheckedU32(heap.currentSize);
      var mprotectSize :- CheckedU32(heap.mprotectSize);
      var entries :- CheckedOption(if tcache.Some? then Some(tcache.value.entries) else None);
      var bins :- CheckedOption(if tcache.Some? then Some(tcache.value.bins) else None);
      Ok(DwarfLayout(stateSize, fastbins, fastbinCount, top, next, arenaMax, sbrkBase, tcacheBins,
                     heapSize, arPtr, prev, currentSize, mprotectSize, entries, bins))
  }

  /** The offsets switch as one set. */
  function ApplyDwarf(l: Layout, d: DwarfLayout): Layout {
    var both := d.tcacheEntriesOffset.Some? && d.tcacheMaxBins.Some?;
    l.(mainArenaSize := d.mallocStateSize,
       fastbinArrayOffset := d.fastbinArrayOffset,
       fastbinCount := d.fastbinCount,
       topOffset := d.topOffset,
       nextOffset := d.nextOffset,
       sbrkBaseOffset := d.sbrkBaseOffset,
       heapInfoSize := d.heapInfoSize,
       heapInfoPrevOffset := d.heapInfoPrevOffset,
       heapInfoSizeOffset := d.heapInfoSizeOffset,
       heapInfoMprotectSizeOffset := d.heapInfoMprotectSizeOffset,
       tcacheEntriesOffset := if both then d.tcacheEntriesOffset.value else l.tcacheEntriesOffset,
       tcacheMaxBins := if both then d.tcacheMaxBins.value else l.tcacheMaxBins)
  }
}

/** What an accepted DWARF layout guarantees. */
module DwarfGeometry {
  import opened Words
  import opened Memory
  import opened Arenas
  import opened Pipeline
  import opened Dwarf

  // ----- Selection -----

  /** Some candidate validates to the layout `v`. */
  ghost predicate Attains<T>(candidates: seq<Structure>, validate: Validator<T>, v: T) {
    exists c :: c in candidates && validate(c) == Ok(v)
  }

  lemma {:induction false} ValidIsSet<T>(candidates: seq<Structure>, validate: Validator<T>)
    ensures forall v :: v in Valid(candidates, validate) <==> Attains(candidates, validate, v)
    ensures forall i, j :: 0 <= i < j < |Valid(candidates, validate)| ==>
              Valid(candidates, validate)[i] != Valid(candidates, validate)[j]
  {
    if candidates != [] {
      var before, last := candidates[..|candidates| - 1], candidates[|candidates| - 1];
      ValidIsSet(before, validate);
      assert candidates == before + [last];
      assert forall c :: c in candidates <==> c in before || c == last;
    }
  }

  /** A layout is selected exactly when it is the one distinct layout that the candidates validate to. */
  lemma SelectsTheOnlyLayout<T>(index: TypeIndex, target: Target, validate: Validator<T>, v: T)
    ensures Selected(index, target, validate) == Ok(v)
       <==> && target in index.candidates
            && Attains(index.candidates[target], validate, v)
            && (forall w :: Attains(index.candidates[target], validate, w) ==> w == v)
  {
    if target in index.candidates {
      var candidates := index.candidates[target];
      var valid := Valid(candidates, validate);
      ValidIsSet(candidates, validate);
      if |valid| > 1 {
        assert valid[0] in valid && valid[1] in valid && valid[0] != valid[1];
        assert Attains(candidates, validate, valid[0]) && Attains(candidates, validate, valid[1]);
      } else if |valid| == 1 {
        assert valid[0] in valid;
      }
    }
  }

  /**
   * Why selection fails: the recorded error when there are no candidates, ambiguity when two layouts are valid, and,
   * when none is, the error of the first candidate.
   */
  lemma SelectionFails<T>(index: TypeIndex, target: Target, validate: Validator<T>)
    ensures target !in index.candidates ==>
              Selected(index, target, validate)
              == Err(if target in index.errors then index.errors[target] else Invalid)
    ensures target in index.candidates && index.candidates[target] == [] ==>
              Selected(index, target, validate) == Err(Invalid)
    ensures target in index.candidates && index.candidates[target] != []
            && (forall c :: c in index.candidates[target] ==> validate(c).Err?) ==>
              Selected(index, target, validate) == Err(validate(index.candidates[target][0]).error)
    ensures forall v, w :: target in index.candidates && v != w && Attains(index.candidates[target], validate, v)
                           && Attains(index.candidates[target], validate, w) ==>
              Selected(index, target, validate) == Err(Invalid)
  {
    if target in index.candidates {
      var candidates := index.candidates[target];
      ValidIsSet(candidates, validate);
      if candidates != [] && forall c :: c in candidates ==> validate(c).Err? {
        NoneIsValid(candidates, validate);
      }
    }
  }

  lemma {:induction false} NoneIsValid<T>(candidates: seq<Structure>, validate: Validator<T>)
    requires candidates != [] && forall c :: c in candidates ==> validate(c).Err?
    ensures Valid(candidates, validate) == []
    ensures FirstError(candidates, validate) == Some(validate(candidates[0]).error)
  {
    if |candidates| > 1 {
      NoneIsValid(candidates[..|candidates| - 1], validate);
    } else {
      assert candidates[..0] == [];
      assert candidates[0] in candidates;
    }
  }

  /** Order, repetition and invalid candidates do not matter: only the set of valid layouts does. */
  lemma SelectionDependsOnSet<T>(index: TypeIndex, index': TypeIndex, target: Target, validate: Validator<T>)
    requires target in index.candidates && target in index'.candidates
    requires forall v :: Attains(index.candidates[target], validate, v)
                    <==> Attains(index'.candidates[target], validate, v)
    ensures var r, r' := Selected(index, target, validate), Selected(index', target, validate);
            (r.Ok? <==> r'.Ok?) && (r.Ok? ==> r.value == r'.value)
  {
    var r, r' := Selected(index, target, validate), Selected(index', target, validate);
    if r.Ok? {
      SameSelection(index, index', target, validate, r.value);
    }
    if r'.Ok? {
      SameSelection(index, index', target, validate, r'.value);
    }
  }

  lemma SameSelection<T>(index: TypeIndex, index': TypeIndex, target: Target, validate: Validator<T>, v: T)
    requires target in index.candidates && target in index'.candidates
    requires forall w :: Attains(index.candidates[target], validate, w)
                    <==> Attains(index'.candidates[target], validate, w)
    ensures Selected(index, target, validate) == Ok(v) <==> Selected(index', target, validate) == Ok(v)
  {
    SelectsTheOnlyLayout(index, target, validate, v);
    SelectsTheOnlyLayout(index', target, validate, v);
    var c, c' := index.candidates[target], index'.candidates[target];
    assert forall w: T :: Attains(c, validate, w) <==> Attains(c', validate, w);
  }

  /** Permuting or repeating candidates, or adding invalid ones, changes neither success nor the layout. */
  lemma OnlyValidCandidatesMatter<T>(index: TypeIndex, index': TypeIndex, target: Target, validate: Validator<T>)
    requires target in index.candidates && target in index'.candidates
    requires forall c :: validate(c).Ok? ==> (c in index.candidates[target] <==> c in index'.candidates[target])
    ensures var r, r' := Selected(index, target, validate), Selected(index', target, validate);
            (r.Ok? <==> r'.Ok?) && (r.Ok? ==> r.value == r'.value)
  {
    forall v
      ensures Attains(index.candidates[target], validate, v) <==> Attains(index'.candidates[target], validate, v)
    {
    }
    SelectionDependsOnSet(index, index', target, validate);
  }

  // ----- Geometry -----

  /** The intervals [a, a + n) and [b, b + k) have no point in common. */
  predicate Apart(a: int, n: int, b: int, k: int) {
    a + n <= b || b + k <= a
  }

  ghost predicate SoundMallocState(l: MallocStateLayout, word: U64) {
    && 1 <= l.fastbinCount <= 256
    && l.fastbins + word * l.fastbinCount <= l.size
    && l.top + word <= l.size
    && l.next + word <= l.size
    && Apart(l.fastbins, word * l.fastbinCount, l.top, word)
    && Apart(l.fastbins, word * l.fastbinCount, l.next, word)
    && Apart(l.top, word, l.next, word)
    && l.fastbins <= 0x10_0000 && l.top <= 0x10_0000 && l.next <= 0x10_0000
  }

  ghost predicate SoundHeapInfo(l: HeapInfoLayout, word: U64) {
    && l.arPtr + word <= l.size && l.prev + word <= l.size
    && l.currentSize + word <= l.size && l.mprotectSize + word <= l.size
    && Apart(l.arPtr, word, l.prev, word)
    && Apart(l.arPtr, word, l.currentSize, word)
    && Apart(l.arPtr, word, l.mprotectSize, word)
    && Apart(l.prev, word, l.currentSize, word)
    && Apart(l.prev, word, l.mprotectSize, word)
    && Apart(l.currentSize, word, l.mprotectSize, word)
  }

  lemma MallocStateIsSound(s: Structure, word: U64)
    requires word in {4, 8} && ValidateMallocState(s, word).Ok?
    ensures SoundMallocState(ValidateMallocState(s, word).value, word)
  {
    var fastbins := RequiredMember(s, "fastbinsY").value;
    var top := RequiredMember(s, "top").value;
    var next := RequiredMember(s, "next").value;
    var all := [fastbins, top, next];
    assert !Overlap(all[0], all[1]) && !Overlap(all[0], all[2]) && !Overlap(all[1], all[2]);
  }

  lemma HeapInfoIsSound(s: Structure, word: U64)
    requires word in {4, 8} && ValidateHeapInfo(s, word).Ok?
    ensures SoundHeapInfo(ValidateHeapInfo(s, word).value, word)
  {
    var all := [RequiredMember(s, "ar_ptr").value, RequiredMember(s, "prev").value,
                RequiredMember(s, "size").value, RequiredMember(s, "mprotect_size").value];
    assert !Overlap(all[0], all[1]) && !Overlap(all[0], all[2]) && !Overlap(all[0], all[3]);
    assert !Overlap(all[1], all[2]) && !Overlap(all[1], all[3]) && !Overlap(all[2], all[3]);
  }

  /** Four words apart from each other need four words of room. */
  lemma HeapInfoHasRoom(l: HeapInfoLayout, word: U64)
    requires SoundHeapInfo(l, word)
    ensures l.size >= 4 * word
  {
  }

  lemma TcacheIsSound(s: Structure, word: U64)
    requires word in {4, 8} && ValidateTcache(s, word).Ok?
    ensures var l := ValidateTcache(s, word).value;
            1 <= l.bins <= 1024 && l.entries + word * l.bins <= s.byteSize
  {
  }

  // ----- Acceptance, exactly -----

  /** `m` is the only member of that name. */
  ghost predicate Sole(members: seq<Member>, name: string, m: Member) {
    exists i :: 0 <= i < |members| && IsSoleAt(members, name, m, i)
  }

  ghost predicate IsSoleAt(members: seq<Member>, name: string, m: Member, i: int)
    requires 0 <= i < |members|
  {
    members[i] == m && m.name == name && forall j :: 0 <= j < |members| && members[j].name == name ==> j == i
  }

  lemma {:induction false} NamedNone(members: seq<Member>, name: string)
    ensures Named(members, name) == [] <==> forall j :: 0 <= j < |members| ==> members[j].name != name
  {
    if members != [] {
      NamedNone(members[1..], name);
      assert forall j :: 0 < j < |members| ==> members[j] == members[1..][j - 1];
    }
  }

  lemma {:induction false} NamedSole(members: seq<Member>, name: string, m: Member)
    ensures |Named(members, name)| == 1 && Named(members, name)[0] == m <==> Sole(members, name, m)
  {
    if members != [] {
      var rest := members[1..];
      NamedSole(rest, name, m);
      NamedNone(rest, name);
      assert forall j :: 0 < j < |members| ==> members[j] == rest[j - 1];
      if members[0].name == name {
        assert |Named(members, name)| == 1 + |Named(rest, name)| && Named(members, name)[0] == members[0];
        assert Sole(members, name, m) ==> IsSoleAt(members, name, m, 0);
        if Named(rest, name) == [] && members[0] == m {
          assert IsSoleAt(members, name, m, 0);
        }
      } else {
        assert Named(members, name) == Named(rest, name);
        if Sole(rest, name, m) {
          var i :| 0 <= i < |rest| && IsSoleAt(rest, name, m, i);
          assert IsSoleAt(members, name, m, i + 1);
        }
        if Sole(members, name, m) {
          var i :| 0 <= i < |members| && IsSoleAt(members, name, m, i);
          assert IsSoleAt(rest, name, m, i - 1);
        }
      }
    }
  }

  lemma RequiredIsSole(s: Structure, name: string, m: Member)
    ensures RequiredMember(s, name) == Ok(m) <==> Sole(s.members, name, m)
  {
    NamedSole(s.members, name, m);
  }

  /** A word of the given kind, aligned, inside the structure. */
  ghost predicate WordField(m: Member, structSize: U64, word: U64, kind: TypeKind)
    requires word > 0
  {
    && m.ty.kind == kind && m.ty.byteSize == Some(word)
    && m.offset % word == 0 && m.offset <= 0x10_0000 && m.offset + word <= structSize
  }

  /** An array of `count` elements of `width` bytes, whose declared size agrees, inside the structure. */
  ghost predicate ArrayField(m: Member, structSize: U64, kind: TypeKind, width: U64, count: U64) {
    && m.ty.kind == Array && m.ty.elementKind == Some(kind)
    && m.ty.elementSize == Some(width) && m.ty.elementCount == Some(count)
    && width > 0 && count > 0
    && width * count <= 0x10_0000 && m.ty.byteSize == Some(width * count)
    && m.offset <= 0x10_0000 && m.offset + width * count <= structSize
  }

  lemma WordMemberExactly(m: Member, structSize: U64, word: U64, kind: TypeKind)
    requires word > 0
    ensures WordMember(m, structSize, word, kind).Pass? <==> WordField(m, structSize, word, kind)
  {
  }

  lemma ArrayShapeExactly(m: Member, structSize: U64, kind: TypeKind, expected: Option<U64>, width: U64, count: U64)
    ensures ArrayShape(m, structSize, kind, expected) == Ok((width, count))
       <==> ArrayField(m, structSize, kind, width, count) && (expected == None || expected == Some(width))
  {
    if m.ty.elementSize == Some(width) && m.ty.elementCount == Some(count) && width > 0 && count > 0 {
      assert width * count > 0;
    }
  }

  ghost predicate MallocStateMembers(s: Structure, word: U64, l: MallocStateLayout, fastbins: Member, top: Member, next: Member)
    requires word > 0
  {
    && Sole(s.members, "fastbinsY", fastbins) && Sole(s.members, "top", top) && Sole(s.members, "next", next)
    && ArrayField(fastbins, s.byteSize, Pointer, word, l.fastbinCount)
    && WordField(top, s.byteSize, word, Pointer) && WordField(next, s.byteSize, word, Pointer)
    && l.size == s.byteSize && l.fastbins == fastbins.offset && l.top == top.offset && l.next == next.offset
  }

  /** A malloc_state is accepted exactly when its three members are as they must be and lie apart. */
  lemma MallocStateAcceptedExactly(s: Structure, word: U64, l: MallocStateLayout)
    requires word in {4, 8}
    ensures ValidateMallocState(s, word) == Ok(l)
       <==> && SoundMallocState(l, word)
            && exists fastbins, top, next :: MallocStateMembers(s, word, l, fastbins, top, next)
  {
    hide RequiredMember, ArrayShape, WordMember, Sole, ArrayField;
    forall m: Member
      ensures RequiredMember(s, "fastbinsY") == Ok(m) <==> Sole(s.members, "fastbinsY", m)
      ensures RequiredMember(s, "top") == Ok(m) <==> Sole(s.members, "top", m)
      ensures RequiredMember(s, "next") == Ok(m) <==> Sole(s.members, "next", m)
      ensures WordMember(m, s.byteSize, word, Pointer).Pass? <==> WordField(m, s.byteSize, word, Pointer)
    {
      RequiredIsSole(s, "fastbinsY", m);
      RequiredIsSole(s, "top", m);
      RequiredIsSole(s, "next", m);
      WordMemberExactly(m, s.byteSize, word, Pointer);
    }
    if ValidateMallocState(s, word) == Ok(l) {
      MallocStateIsSound(s, word);
      var fastbins := RequiredMember(s, "fastbinsY").value;
      var shape := PointerArray(fastbins, s.byteSize, word).value;
      ArrayShapeExactly(fastbins, s.byteSize, Pointer, Some(word), shape.0, shape.1);
      assert shape.0 == word by {
        assert Some(word) == Some(shape.0);
      }
      assert MallocStateMembers(s, word, l, fastbins, RequiredMember(s, "top").value, RequiredMember(s, "next").value);
    }
    if SoundMallocState(l, word) && exists fastbins, top, next :: MallocStateMembers(s, word, l, fastbins, top, next) {
      var fastbins, top, next :| MallocStateMembers(s, word, l, fastbins, top, next);
      ArrayShapeExactly(fastbins, s.byteSize, Pointer, Some(word), word, l.fastbinCount);
      ApartMembers(fastbins, top, next, l, word, s.byteSize);
    }
  }

  ghost predicate HeapInfoMembers(
      s: Structure, word: U64, l: HeapInfoLayout, arPtr: Member, prev: Member, size: Member, mprotectSize: Member)
    requires word > 0
  {
    && Sole(s.members, "ar_ptr", arPtr) && Sole(s.members, "prev", prev)
    && Sole(s.members, "size", size) && Sole(s.members, "mprotect_size", mprotectSize)
    && WordField(arPtr, s.byteSize, word, Pointer) && WordField(prev, s.byteSize, word, Pointer)
    && WordField(size, s.byteSize, word, Unsigned) && WordField(mprotectSize, s.byteSize, word, Unsigned)
    && l == HeapInfoLayout(s.byteSize, arPtr.offset, prev.offset, size.offset, mprotectSize.offset)
  }

  /** A heap_info is accepted exactly when its four words are as they must be and lie apart. */
  lemma HeapInfoAcceptedExactly(s: Structure, word: U64, l: HeapInfoLayout)
    requires word in {4, 8}
    ensures ValidateHeapInfo(s, word) == Ok(l)
       <==> && SoundHeapInfo(l, word)
            && exists arPtr, prev, size, mprotectSize :: HeapInfoMembers(s, word, l, arPtr, prev, size, mprotectSize)
  {
    hide RequiredMember, WordMember, Sole;
    forall m: Member
      ensures RequiredMember(s, "ar_ptr") == Ok(m) <==> Sole(s.members, "ar_ptr", m)
      ensures RequiredMember(s, "prev") == Ok(m) <==> Sole(s.members, "prev", m)
      ensures RequiredMember(s, "size") == Ok(m) <==> Sole(s.members, "size", m)
      ensures RequiredMember(s, "mprotect_size") == Ok(m) <==> Sole(s.members, "mprotect_size", m)
      ensures WordMember(m, s.byteSize, word, Pointer).Pass? <==> WordField(m, s.byteSize, word, Pointer)
      ensures WordMember(m, s.byteSize, word, Unsigned).Pass? <==> WordField(m, s.byteSize, word, Unsigned)
    {
      RequiredIsSole(s, "ar_ptr", m);
      RequiredIsSole(s, "prev", m);
      RequiredIsSole(s, "size", m);
      RequiredIsSole(s, "mprotect_size", m);
      WordMemberExactly(m, s.byteSize, word, Pointer);
      WordMemberExactly(m, s.byteSize, word, Unsigned);
    }
    if ValidateHeapInfo(s, word) == Ok(l) {
      HeapInfoIsSound(s, word);
      assert HeapInfoMembers(s, word, l, RequiredMember(s, "ar_ptr").value, RequiredMember(s, "prev").value,
                             RequiredMember(s, "size").value, RequiredMember(s, "mprotect_size").value);
    }
    if SoundHeapInfo(l, word)
       && exists arPtr, prev, size, mprotectSize :: HeapInfoMembers(s, word, l, arPtr, prev, size, mprotectSize) {
      var arPtr, prev, size, mprotectSize :| HeapInfoMembers(s, word, l, arPtr, prev, size, mprotectSize);
      ApartWords(arPtr, prev, size, mprotectSize, l, word, s.byteSize);
    }
  }

  lemma ApartWords(
      arPtr: Member, prev: Member, size: Member, mprotectSize: Member, l: HeapInfoLayout, word: U64, structSize: U64)
    requires word in {4, 8} && SoundHeapInfo(l, word)
    requires WordField(arPtr, structSize, word, Pointer) && WordField(prev, structSize, word, Pointer)
    requires WordField(size, structSize, word, Unsigned) && WordField(mprotectSize, structSize, word, Unsigned)
    requires l.arPtr == arPtr.offset && l.prev == prev.offset
    requires l.currentSize == size.offset && l.mprotectSize == mprotectSize.offset
    ensures NoOverlap([arPtr, prev, size, mprotectSize])
  {
  }

  ghost predicate TcacheMembers(s: Structure, word: U64, l: TcacheLayout, counts: Member, width: U64, entries: Member)
    requires word > 0
  {
    && Sole(s.members, "counts", counts) && Sole(s.members, "entries", entries)
    && width in {1, 2, 4, 8}
    && (ArrayField(counts, s.byteSize, Signed, width, l.bins) || ArrayField(counts, s.byteSize, Unsigned, width, l.bins))
    && ArrayField(entries, s.byteSize, Pointer, word, l.bins)
    && l.bins <= 1024 && l.entries == entries.offset
    && Apart(counts.offset, width * l.bins, entries.offset, word * l.bins)
  }

  /** A tcache is accepted exactly when its two arrays agree in length, are as they must be and lie apart. */
  lemma TcacheAcceptedExactly(s: Structure, word: U64, l: TcacheLayout)
    requires word in {4, 8}
    ensures ValidateTcache(s, word) == Ok(l)
       <==> exists counts, width, entries :: TcacheMembers(s, word, l, counts, width, entries)
  {
    hide RequiredMember, ArrayShape, Sole, ArrayField;
    forall m: Member
      ensures RequiredMember(s, "counts") == Ok(m) <==> Sole(s.members, "counts", m)
      ensures RequiredMember(s, "entries") == Ok(m) <==> Sole(s.members, "entries", m)
    {
      RequiredIsSole(s, "counts", m);
      RequiredIsSole(s, "entries", m);
    }
    if ValidateTcache(s, word) == Ok(l) {
      var counts, entries := RequiredMember(s, "counts").value, RequiredMember(s, "entries").value;
      var shape := IntegerArray(counts, s.byteSize).value;
      var kind := counts.ty.elementKind.value;
      ArrayShapeExactly(counts, s.byteSize, kind, None, shape.0, shape.1);
      var entryShape := PointerArray(entries, s.byteSize, word).value;
      ArrayShapeExactly(entries, s.byteSize, Pointer, Some(word), entryShape.0, entryShape.1);
      assert entryShape.0 == word by {
        assert Some(word) == Some(entryShape.0);
      }
      ApartArrays(counts, entries, s.byteSize, kind, shape.0, word, l.bins);
      assert TcacheMembers(s, word, l, counts, shape.0, entries);
    }
    if exists counts, width, entries :: TcacheMembers(s, word, l, counts, width, entries) {
      var counts, width, entries :| TcacheMembers(s, word, l, counts, width, entries);
      var kind := if ArrayField(counts, s.byteSize, Signed, width, l.bins) then Signed else Unsigned;
      ElementsHaveKind(counts, s.byteSize, kind, width, l.bins);
      ArrayShapeExactly(counts, s.byteSize, kind, None, width, l.bins);
      ArrayShapeExactly(entries, s.byteSize, Pointer, Some(word), word, l.bins);
      ApartArrays(counts, entries, s.byteSize, kind, width, word, l.bins);
    }
  }

  lemma ElementsHaveKind(m: Member, structSize: U64, kind: TypeKind, width: U64, count: U64)
    requires ArrayField(m, structSize, kind, width, count)
    ensures m.ty.elementKind == Some(kind) && count > 0
  {
  }

  /** Whether two arrays inside a structure overlap is a matter of their offsets and lengths. */
  lemma ApartArrays(
      counts: Member, entries: Member, structSize: U64, kind: TypeKind, width: U64, word: U64, bins: U64)
    requires ArrayField(counts, structSize, kind, width, bins) && ArrayField(entries, structSize, Pointer, word, bins)
    ensures NoOverlap([counts, entries]) <==> Apart(counts.offset, width * bins, entries.offset, word * bins)
  {
    var all := [counts, entries];
    assert NoOverlap(all) <==> !Overlap(all[0], all[1]);
    assert SizeOf(counts) == width * bins && SizeOf(entries) == word * bins;
  }

  lemma ApartMembers(fastbins: Member, top: Member, next: Member, l: MallocStateLayout, word: U64, structSize: U64)
    requires word in {4, 8} && SoundMallocState(l, word)
    requires ArrayField(fastbins, structSize, Pointer, word, l.fastbinCount)
    requires WordField(top, structSize, word, Pointer) && WordField(next, structSize, word, Pointer)
    requires l.fastbins == fastbins.offset && l.top == top.offset && l.next == next.offset
    ensures NoOverlap([fastbins, top, next])
  {
  }

  /** Whatever the candidates, an accepted layout is geometrically sound. */
  lemma AcceptedLayoutIsSound(index: TypeIndex, word: U64, requireTcache: bool)
    requires AssembleLayout(index, word, requireTcache).Ok?
    ensures word in {4, 8}
    ensures var d := AssembleLayout(index, word, requireTcache).value;
            && SoundMallocState(
                 MallocStateLayout(d.mallocStateSize, d.fastbinArrayOffset, d.fastbinCount, d.topOffset, d.nextOffset),
                 word)
            && SoundHeapInfo(
                 HeapInfoLayout(d.heapInfoSize, d.heapInfoArPtrOffset, d.heapInfoPrevOffset, d.heapInfoSizeOffset,
                                d.heapInfoMprotectSizeOffset),
                 word)
            && d.heapInfoSize >= 4 * word
            && (requireTcache ==>
                  && d.tcacheEntriesOffset.Some? && d.tcacheMaxBins.Some?
                  && 1 <= d.tcacheMaxBins.value <= 1024
                  && Tcache in index.candidates
                  && exists s :: s in index.candidates[Tcache]
                       && d.tcacheEntriesOffset.value + word * d.tcacheMaxBins.value <= s.byteSize)
  {
    hide ValidateMallocState, ValidateMallocPar, ValidateHeapInfo, ValidateTcache, Selected;
    hide SoundMallocState, SoundHeapInfo;
    var state := Selected(index, MallocState, MallocStateValidator(word)).value;
    SelectsTheOnlyLayout(index, MallocState, MallocStateValidator(word), state);
    var s :| s in index.candidates[MallocState] && MallocStateValidator(word)(s) == Ok(state);
    MallocStateIsSound(s, word);
    var heap := Selected(index, HeapInfo, HeapInfoValidator(word)).value;
    SelectsTheOnlyLayout(index, HeapInfo, HeapInfoValidator(word), heap);
    var h :| h in index.candidates[HeapInfo] && HeapInfoValidator(word)(h) == Ok(heap);
    HeapInfoIsSound(h, word);
    HeapInfoHasRoom(heap, word);
    if requireTcache {
      var tcache := Selected(index, Tcache, TcacheValidator(word)).value;
      SelectsTheOnlyLayout(index, Tcache, TcacheValidator(word), tcache);
      var t :| t in index.candidates[Tcache] && TcacheValidator(word)(t) == Ok(tcache);
      TcacheIsSound(t, word);
    }
  }

  /**
   * With an accepted layout, no byte of a fastbin slot is a byte of `top` or of `next`, wherever the arena
   * lies and even where its addresses wrap around.
   */
  lemma FastbinSlotsMissTopAndNext(
      index: TypeIndex, requireTcache: bool, layout: Layout, arena: Arena, bin: U32, i: U64, j: U64)
    requires AssembleLayout(index, WORD, requireTcache).Ok?
    requires i < WORD && j < WORD
    requires bin < ApplyDwarf(layout, AssembleLayout(index, WORD, requireTcache).value).fastbinCount
    ensures var l := ApplyDwarf(layout, AssembleLayout(index, WORD, requireTcache).value);
            var slot := FastbinSlot(l, arena, bin);
            && WrappingAdd(slot, i) != WrappingAdd(WrappingAdd(arena.mallocStateAddr, l.topOffset), j)
            && WrappingAdd(slot, i) != WrappingAdd(WrappingAdd(arena.mallocStateAddr, l.nextOffset), j)
  {
    hide AssembleLayout;
    AcceptedLayoutIsSound(index, WORD, requireTcache);
  }
}
