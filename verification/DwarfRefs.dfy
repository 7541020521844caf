/** Chasing type references between DIEs, across units, through a graph that may be cyclic. */
module DwarfRefs {
  import opened Words
  import opened Orbit
  import opened Dwarf

  const MAX_REFERENCE_DEPTH: nat := 64

  /** A unit of .debug_info: its DIEs lie at offsets from `headerSize` on, below `size`, relative to `offset`. */
  datatype UnitHeader = UnitHeader(offset: nat, headerSize: nat, size: nat)

  /** A DIE, by the offset of its unit and its own offset in it. */
  datatype DieId = DieId(unitOffset: nat, offset: nat)

  datatype Reference = UnitRef(offset: nat) | InfoRef(absolute: nat) | Supplementary | Signature | NotAReference

  datatype Die = StructureDie | QualifierDie(ref: Option<Reference>) | OtherDie

  type Forest = map<DieId, Die>

  /** The unit-relative offset of an absolute one, if the unit's entries contain it. */
  function ToUnitOffset(absolute: nat, h: UnitHeader): Option<nat> {
    if absolute >= h.offset && h.headerSize <= absolute - h.offset < h.size then Some(absolute - h.offset) else None
  }

  /** How many headers, from the first on, start at or before `absolute`. */
  function PartitionPoint(headers: seq<UnitHeader>, absolute: nat): (n: nat)
    ensures n <= |headers|
  {
    if headers != [] && headers[0].offset <= absolute then 1 + PartitionPoint(headers[1..], absolute) else 0
  }

  function LoadUnitAt(headers: seq<UnitHeader>, absolute: nat): Result<DieId, DwarfError> {
    var next := PartitionPoint(headers, absolute);
    if next == 0 then Err(Invalid)
    else
      match ToUnitOffset(absolute, headers[next - 1])
      case None => Err(Invalid)
      case Some(offset) => Ok(DieId(headers[next - 1].offset, offset))
  }

  function AttributeDieRef(headers: seq<UnitHeader>, id: DieId, ref: Reference): Result<DieId, DwarfError> {
    match ref
    case UnitRef(offset) => Ok(DieId(id.unitOffset, offset))
    case InfoRef(absolute) => LoadUnitAt(headers, absolute)
    case Supplementary => Err(Unsupported)
    case Signature => Err(Unsupported)
    case NotAReference => Err(Invalid)
  }

  function ResolveStructure(
      forest: Forest, headers: seq<UnitHeader>, id: DieId, depth: nat, visited: set<DieId>): Result<DieId, DwarfError>
    decreases MAX_REFERENCE_DEPTH - depth
  {
    if depth >= MAX_REFERENCE_DEPTH then Err(Limit)
    else if id in visited then Err(Invalid)
    else if id !in forest then Err(Parse)
    else
      match forest[id]
      case StructureDie => Ok(id)
      case OtherDie => Err(Invalid)
      case QualifierDie(None) => Err(Invalid)
      case QualifierDie(Some(ref)) =>
        var next :- AttributeDieRef(headers, id, ref);
        ResolveStructure(forest, headers, next, depth + 1, visited + {id})
  }

  // ----- Finding the unit of an absolute offset -----

  /** Headers in .debug_info order: each unit ends before the next begins. */
  ghost predicate InOrder(headers: seq<UnitHeader>) {
    && (forall i :: 0 <= i < |headers| ==> headers[i].size > 0)
    && (forall i, j :: 0 <= i < j < |headers| ==> headers[i].offset + headers[i].size <= headers[j].offset)
  }

  lemma {:induction false} PartitionSplits(headers: seq<UnitHeader>, absolute: nat)
    requires InOrder(headers)
    ensures var n := PartitionPoint(headers, absolute);
            && (forall i :: 0 <= i < n ==> headers[i].offset <= absolute)
            && (forall i :: n <= i < |headers| ==> headers[i].offset > absolute)
  {
    if headers != [] {
      var rest := headers[1..];
      PartitionSplits(rest, absolute);
      forall i | 0 < i < |headers|
        ensures headers[i] == rest[i - 1] && headers[0].offset < headers[i].offset
      {
        assert headers[0].size > 0;
      }
    }
  }

  /** The header before the partition point is the unit that contains the offset, if any does. */
  lemma LoadUnitFindsTheUnit(headers: seq<UnitHeader>, absolute: nat, id: DieId)
    requires InOrder(headers)
    ensures LoadUnitAt(headers, absolute) == Ok(id)
       <==> exists h :: h in headers && ToUnitOffset(absolute, h).Some?
              && id == DieId(h.offset, ToUnitOffset(absolute, h).value)
    ensures LoadUnitAt(headers, absolute).Ok? <==> exists h :: h in headers && ToUnitOffset(absolute, h).Some?
  {
    PartitionSplits(headers, absolute);
    var next: int := PartitionPoint(headers, absolute);
    assert forall i :: 0 <= i < next - 1 ==> headers[i].offset + headers[i].size <= headers[next - 1].offset;
    forall h | h in headers && ToUnitOffset(absolute, h).Some?
      ensures next > 0 && h == headers[next - 1]
    {
      var i :| 0 <= i < |headers| && headers[i] == h;
    }
  }

  // ----- Reaching a structure -----

  /** Only typedefs and qualifiers with a usable reference lead on; a structure ends the chain. */
  function DieLinks(forest: Forest, headers: seq<UnitHeader>): DieId -> Link<DieId> {
    (id: DieId) =>
      if id !in forest then Broken
      else
        match forest[id]
        case StructureDie => End
        case OtherDie => Broken
        case QualifierDie(None) => Broken
        case QualifierDie(Some(ref)) =>
          match AttributeDieRef(headers, id, ref)
          case Err(_) => Broken
          case Ok(next) => To(next)
  }

  lemma {:induction false} ResolveFollows(
      forest: Forest, headers: seq<UnitHeader>, id: DieId, seen: seq<DieId>, visited: set<DieId>)
    requires |seen| <= MAX_REFERENCE_DEPTH && forall d :: d in visited <==> d in seen
    ensures var trail := Follow(DieLinks(forest, headers), MAX_REFERENCE_DEPTH, id, seen);
            var r := ResolveStructure(forest, headers, id, |seen|, visited);
            && (trail.stop == Ended <==> r.Ok?)
            && (trail.stop == Ended ==> trail.nodes != [] && r.value == trail.nodes[|trail.nodes| - 1])
            && (trail.stop == Capped <==> r == Err(Limit))
    decreases MAX_REFERENCE_DEPTH - |seen|
  {
    var link := DieLinks(forest, headers)(id);
    if |seen| < MAX_REFERENCE_DEPTH && id !in seen && link.To? {
      ResolveFollows(forest, headers, link.next, seen + [id], visited + {id});
    }
  }

  /**
   * `next` is the DIE at the absolute offset, in the last of the headers that start at or before it, if its
   * entries contain it.
   */
  ghost predicate UnitHolds(headers: seq<UnitHeader>, absolute: nat, next: DieId) {
    exists k :: 0 <= k < |headers| && LastBefore(headers, absolute, k)
      && headers[k].headerSize <= absolute - headers[k].offset < headers[k].size
      && next == DieId(headers[k].offset, absolute - headers[k].offset)
  }

  ghost predicate LastBefore(headers: seq<UnitHeader>, absolute: nat, k: int)
    requires 0 <= k < |headers|
  {
    && (forall i :: 0 <= i <= k ==> headers[i].offset <= absolute)
    && (k + 1 < |headers| ==> headers[k + 1].offset > absolute)
  }

  /** A typedef or qualifier refers to `next`: in its own unit, or by an absolute offset. */
  ghost predicate PointsTo(forest: Forest, headers: seq<UnitHeader>, id: DieId, next: DieId) {
    && id in forest
    && match forest[id]
       case QualifierDie(Some(UnitRef(offset))) => next == DieId(id.unitOffset, offset)
       case QualifierDie(Some(InfoRef(absolute))) => UnitHolds(headers, absolute, next)
       case _ => false
  }

  ghost predicate PointsOn(forest: Forest, headers: seq<UnitHeader>, id: DieId) {
    exists next :: PointsTo(forest, headers, id, next)
  }

  ghost predicate Chain(forest: Forest, headers: seq<UnitHeader>, id: DieId, path: seq<DieId>) {
    && |path| > 0
    && path[0] == id
    && forall i :: 0 <= i < |path| - 1 ==> PointsTo(forest, headers, path[i], path[i + 1])
  }

  lemma {:induction false} PartitionExactly(headers: seq<UnitHeader>, absolute: nat)
    ensures var n := PartitionPoint(headers, absolute);
            && (forall i :: 0 <= i < n ==> headers[i].offset <= absolute)
            && (n < |headers| ==> headers[n].offset > absolute)
  {
    if headers != [] {
      var rest := headers[1..];
      PartitionExactly(rest, absolute);
      assert forall i :: 0 < i < |headers| ==> headers[i] == rest[i - 1];
    }
  }

  lemma LoadsWhatTheUnitHolds(headers: seq<UnitHeader>, absolute: nat, next: DieId)
    ensures LoadUnitAt(headers, absolute) == Ok(next) <==> UnitHolds(headers, absolute, next)
  {
    PartitionExactly(headers, absolute);
    var n := PartitionPoint(headers, absolute);
    forall k | 0 <= k < |headers| && LastBefore(headers, absolute, k)
      ensures n == k + 1
    {
    }
    if n > 0 {
      assert LastBefore(headers, absolute, n - 1);
    }
  }

  /** Among headers in order that is the unit that contains the offset. */
  lemma UnitHoldsExactly(headers: seq<UnitHeader>, absolute: nat, next: DieId)
    requires InOrder(headers)
    ensures UnitHolds(headers, absolute, next)
       <==> exists h :: h in headers && h.headerSize <= absolute - h.offset < h.size
              && next == DieId(h.offset, absolute - h.offset)
  {
    LoadsWhatTheUnitHolds(headers, absolute, next);
    LoadUnitFindsTheUnit(headers, absolute, next);
    forall h | h in headers && h.headerSize <= absolute - h.offset < h.size
      ensures ToUnitOffset(absolute, h) == Some(absolute - h.offset)
    {
    }
  }

  lemma LinksPoint(forest: Forest, headers: seq<UnitHeader>, id: DieId, next: DieId)
    ensures DieLinks(forest, headers)(id) == To(next) <==> PointsTo(forest, headers, id, next)
  {
    if id in forest && forest[id].QualifierDie? && forest[id].ref.Some? && forest[id].ref.value.InfoRef? {
      LoadsWhatTheUnitHolds(headers, forest[id].ref.value.absolute, next);
    }
  }

  lemma ChainsArePaths(forest: Forest, headers: seq<UnitHeader>, id: DieId, path: seq<DieId>)
    ensures IsPath(DieLinks(forest, headers), id, path) <==> Chain(forest, headers, id, path)
  {
    hide DieLinks, PointsTo;
    forall i | 0 <= i < |path| - 1
      ensures DieLinks(forest, headers)(path[i]) == To(path[i + 1]) <==> PointsTo(forest, headers, path[i], path[i + 1])
    {
      LinksPoint(forest, headers, path[i], path[i + 1]);
    }
  }

  /** The references lead from `id` to the structure `d` in at most `hops` hops. */
  ghost predicate LeadsTo(forest: Forest, headers: seq<UnitHeader>, id: DieId, d: DieId, hops: nat) {
    exists path :: Chain(forest, headers, id, path) && |path| <= hops + 1
      && path[|path| - 1] == d && d in forest && forest[d] == StructureDie
  }

  /**
   * On any graph, cyclic or not: resolving succeeds with d exactly when d is the structure that the chain of
   * typedefs and qualifiers leads to, within 63 hops.
   */
  lemma ResolvesExactly(forest: Forest, headers: seq<UnitHeader>, id: DieId, d: DieId)
    ensures ResolveStructure(forest, headers, id, 0, {}) == Ok(d)
       <==> LeadsTo(forest, headers, id, d, 63)
  {
    hide ResolveStructure, Follow, DieLinks, TrailFrom, IsPath, Chain;
    var links := DieLinks(forest, headers);
    ResolveFollows(forest, headers, id, [], {});
    FollowDecides(links, MAX_REFERENCE_DEPTH, id);
    var trail := Follow(links, MAX_REFERENCE_DEPTH, id, []);
    forall path
      ensures IsPath(links, id, path) <==> Chain(forest, headers, id, path)
      ensures Chain(forest, headers, id, path) ==> |path| > 0
    {
      ChainsArePaths(forest, headers, id, path);
      NotEmpty(forest, headers, id, path);
    }
    forall e: DieId
      ensures links(e) == End <==> e in forest && forest[e] == StructureDie
    {
      EndsAtStructures(forest, headers, e);
    }
    forall path | Chain(forest, headers, id, path) && |path| <= MAX_REFERENCE_DEPTH && links(path[|path| - 1]) == End
      ensures trail == Trail(path, Ended)
    {
      FollowTakesPath(links, MAX_REFERENCE_DEPTH, id, path, 0) by {
        FirstOf(forest, headers, id, path);
      }
      FirstOf(forest, headers, id, path);
      assert path[..0] == [];
    }
    if trail.stop == Ended {
      assert TrailFrom(links, MAX_REFERENCE_DEPTH, id, trail);
      TrailEnds(links, MAX_REFERENCE_DEPTH, id, trail);
    }
  }

  lemma NotEmpty(forest: Forest, headers: seq<UnitHeader>, id: DieId, path: seq<DieId>)
    ensures Chain(forest, headers, id, path) ==> |path| > 0
  {
  }

  lemma FirstOf(forest: Forest, headers: seq<UnitHeader>, id: DieId, path: seq<DieId>)
    requires Chain(forest, headers, id, path)
    ensures |path| > 0 && path[0] == id
  {
  }

  lemma EndsAtStructures(forest: Forest, headers: seq<UnitHeader>, e: DieId)
    ensures DieLinks(forest, headers)(e) == End <==> e in forest && forest[e] == StructureDie
  {
    hide AttributeDieRef;
  }

  lemma TrailEnds(links: DieId -> Link<DieId>, cap: nat, head: DieId, trail: Trail<DieId>)
    requires TrailFrom(links, cap, head, trail) && trail.stop == Ended
    ensures IsPath(links, head, trail.nodes) && |trail.nodes| > 0 && |trail.nodes| <= cap
    ensures links(trail.nodes[|trail.nodes| - 1]) == End
  {
  }

  /** The depth limit is hit exactly when the first 64 DIEs are distinct and all lead on. */
  lemma LimitExactly(forest: Forest, headers: seq<UnitHeader>, id: DieId)
    ensures ResolveStructure(forest, headers, id, 0, {}) == Err(Limit)
       <==> exists path :: Chain(forest, headers, id, path) && Distinct(path)
              && |path| == 64 && PointsOn(forest, headers, path[63])
  {
    hide ResolveStructure, Follow, DieLinks, TrailFrom, IsPath, Chain, PointsTo, Distinct;
    var links := DieLinks(forest, headers);
    ResolveFollows(forest, headers, id, [], {});
    CappedExactly(links, MAX_REFERENCE_DEPTH, id);
    forall path
      ensures IsPath(links, id, path) <==> Chain(forest, headers, id, path)
    {
      ChainsArePaths(forest, headers, id, path);
    }
    forall e: DieId, next
      ensures links(e) == To(next) <==> PointsTo(forest, headers, e, next)
    {
      LinksPoint(forest, headers, e, next);
    }
    if ResolveStructure(forest, headers, id, 0, {}) == Err(Limit) {
      var path :| IsPath(links, id, path) && Distinct(path) && |path| == MAX_REFERENCE_DEPTH
                  && links(path[MAX_REFERENCE_DEPTH - 1]).To?;
      var next := links(path[MAX_REFERENCE_DEPTH - 1]).next;
      assert PointsTo(forest, headers, path[MAX_REFERENCE_DEPTH - 1], next);
    }
  }
}
