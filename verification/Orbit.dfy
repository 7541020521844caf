/** Following a deterministic chain of links under a visited set and a cap. */
module Orbit {
  datatype Link<+N> = Broken | End | To(next: N)

  datatype Stop = Ended | BrokenOff | Repeated | Capped

  datatype Trail<+N> = Trail(nodes: seq<N>, stop: Stop)

  function Follow<N(==)>(links: N -> Link<N>, cap: nat, current: N, seen: seq<N>): Trail<N>
    requires |seen| <= cap
    decreases cap - |seen|
  {
    if |seen| == cap then Trail(seen, Capped)
    else if current in seen then Trail(seen, Repeated)
    else
      match links(current)
      case Broken => Trail(seen + [current], BrokenOff)
      case End => Trail(seen + [current], Ended)
      case To(next) => Follow(links, cap, next, seen + [current])
  }

  lemma FollowUnfolds<N>(links: N -> Link<N>, cap: nat, current: N, seen: seq<N>)
    requires |seen| <= cap
    ensures Follow(links, cap, current, seen) ==
            if |seen| == cap then Trail(seen, Capped)
            else if current in seen then Trail(seen, Repeated)
            else
              match links(current)
              case Broken => Trail(seen + [current], BrokenOff)
              case End => Trail(seen + [current], Ended)
              case To(next) => Follow(links, cap, next, seen + [current])
  {
  }

  ghost predicate Distinct<N>(s: seq<N>) {
    forall i, j :: 0 <= i < j < |s| ==> s[i] != s[j]
  }

  ghost predicate IsPath<N>(links: N -> Link<N>, head: N, path: seq<N>) {
    && |path| > 0
    && path[0] == head
    && forall i :: 0 <= i < |path| - 1 ==> links(path[i]) == To(path[i + 1])
  }

  /** Some path of at most `limit` nodes leads from `head` to a node whose link is `final`. */
  ghost predicate Reaches<N(!new)>(links: N -> Link<N>, head: N, limit: nat, final: Link<N>) {
    exists path :: IsPath(links, head, path) && |path| <= limit && links(path[|path| - 1]) == final
  }

  /** The orbit lemma: a deterministic chain that stops never visits a node twice. */
  lemma StoppingPathIsDistinct<N>(links: N -> Link<N>, head: N, path: seq<N>)
    requires IsPath(links, head, path) && !links(path[|path| - 1]).To?
    ensures Distinct(path)
  {
    forall i, j | 0 <= i < j < |path|
      ensures path[i] != path[j]
    {
      var k := |path| - 1 - j;
      assert links(path[i + k]) == To(path[i + k + 1]);
      if path[i] == path[j] {
        EqualNodesStayEqual(links, head, path, i, j, k);
      }
    }
  }

  lemma {:induction false} EqualNodesStayEqual<N>(links: N -> Link<N>, head: N, path: seq<N>, i: nat, j: nat, k: nat)
    requires IsPath(links, head, path) && i < j && j + k < |path| && path[i] == path[j]
    ensures path[i + k] == path[j + k]
    decreases k
  {
    if k > 0 {
      EqualNodesStayEqual(links, head, path, i, j, k - 1);
      assert links(path[i + k - 1]) == To(path[i + k]);
      assert links(path[j + k - 1]) == To(path[j + k]);
    }
  }

  /** What a trail is, whatever the links: a repetition-free path within the cap, and why it stopped. */
  ghost predicate TrailFrom<N>(links: N -> Link<N>, cap: nat, head: N, trail: Trail<N>) {
    && IsPath(links, head, trail.nodes)
    && Distinct(trail.nodes)
    && |trail.nodes| <= cap
    && var last := links(trail.nodes[|trail.nodes| - 1]);
       match trail.stop
       case Ended => last == End
       case BrokenOff => last == Broken
       case Repeated => last.To? && last.next in trail.nodes && |trail.nodes| < cap
       case Capped => last.To? && |trail.nodes| == cap
  }

  lemma {:induction false} FollowIsTrail<N>(links: N -> Link<N>, cap: nat, head: N, current: N, seen: seq<N>)
    requires |seen| <= cap && cap > 0
    requires IsPath(links, head, seen + [current]) && Distinct(seen)
    ensures TrailFrom(links, cap, head, Follow(links, cap, current, seen))
    decreases cap - |seen|
  {
    var all := seen + [current];
    if |seen| < cap && current !in seen {
      assert Distinct(all);
      if links(current).To? {
        var next := links(current).next;
        assert forall i :: 0 <= i < |all| - 1 ==> links((all + [next])[i]) == links(all[i]) == To(all[i + 1]);
        FollowIsTrail(links, cap, head, next, all);
      }
    } else {
      forall i | 0 <= i < |seen| - 1
        ensures links(seen[i]) == To(seen[i + 1])
      {
        assert links(all[i]) == To(all[i + 1]);
      }
      assert links(all[|seen| - 1]) == To(all[|seen|]);
    }
  }

  /** A stopping path within the cap is exactly what is followed. */
  lemma {:induction false} FollowTakesPath<N>(links: N -> Link<N>, cap: nat, head: N, path: seq<N>, k: nat)
    requires IsPath(links, head, path) && !links(path[|path| - 1]).To?
    requires k < |path| <= cap
    ensures Follow(links, cap, path[k], path[..k])
         == Trail(path, if links(path[|path| - 1]) == End then Ended else BrokenOff)
    decreases |path| - k
  {
    StoppingPathIsDistinct(links, head, path);
    assert path[k] !in path[..k];
    assert path[..k] + [path[k]] == path[..k + 1];
    if k + 1 < |path| {
      FollowTakesPath(links, cap, head, path, k + 1);
    } else {
      assert path[..k + 1] == path;
    }
  }

  /** A trail ends, or breaks off, exactly when some path within the cap does. */
  lemma FollowDecides<N(!new)>(links: N -> Link<N>, cap: nat, head: N)
    requires cap > 0
    ensures TrailFrom(links, cap, head, Follow(links, cap, head, []))
    ensures Follow(links, cap, head, []).stop == Ended <==> Reaches(links, head, cap, End)
    ensures Follow(links, cap, head, []).stop == BrokenOff <==> Reaches(links, head, cap, Broken)
  {
    assert IsPath(links, head, [] + [head]);
    FollowIsTrail(links, cap, head, head, []);
    forall path | IsPath(links, head, path) && |path| <= cap && !links(path[|path| - 1]).To?
      ensures Follow(links, cap, head, [])
           == Trail(path, if links(path[|path| - 1]) == End then Ended else BrokenOff)
    {
      FollowTakesPath(links, cap, head, path, 0);
      assert path[..0] == [];
    }
  }

  /** Running into the cap means exactly that the first `cap` nodes are distinct and all lead on. */
  lemma {:induction false} FollowsToCap<N>(links: N -> Link<N>, cap: nat, head: N, path: seq<N>, k: nat)
    requires IsPath(links, head, path) && Distinct(path) && links(path[|path| - 1]).To?
    requires k < |path| == cap
    ensures Follow(links, cap, path[k], path[..k]) == Trail(path, Capped)
    decreases |path| - k
  {
    assert path[..k] + [path[k]] == path[..k + 1];
    if k + 1 < |path| {
      FollowsToCap(links, cap, head, path, k + 1);
    } else {
      assert path[..k + 1] == path;
    }
  }

  lemma CappedExactly<N(!new)>(links: N -> Link<N>, cap: nat, head: N)
    requires cap > 0
    ensures Follow(links, cap, head, []).stop == Capped
       <==> exists path :: IsPath(links, head, path) && Distinct(path) && |path| == cap && links(path[cap - 1]).To?
  {
    FollowDecides(links, cap, head);
    forall path | IsPath(links, head, path) && Distinct(path) && |path| == cap && links(path[cap - 1]).To?
      ensures Follow(links, cap, head, []).stop == Capped
    {
      FollowsToCap(links, cap, head, path, 0);
      assert path[..0] == [];
    }
  }

  lemma {:induction false} PathsAgree<N>(links: N -> Link<N>, head: N, p: seq<N>, q: seq<N>, k: nat)
    requires IsPath(links, head, p) && IsPath(links, head, q) && k < |p| && k < |q|
    ensures p[k] == q[k]
  {
    if k > 0 {
      PathsAgree(links, head, p, q, k - 1);
      assert links(p[k - 1]) == To(p[k]) && links(q[k - 1]) == To(q[k]);
    }
  }

  /** Once a path links back to one of its own nodes, no path from the same head ever stops. */
  lemma LoopingPathNeverStops<N(!new)>(links: N -> Link<N>, head: N, loop: seq<N>, limit: nat, final: Link<N>)
    requires IsPath(links, head, loop) && links(loop[|loop| - 1]).To? && links(loop[|loop| - 1]).next in loop
    requires !final.To?
    ensures !Reaches(links, head, limit, final)
  {
    forall path | IsPath(links, head, path) && !links(path[|path| - 1]).To?
      ensures false
    {
      StoppingPathIsDistinct(links, head, path);
      var n := |loop| - 1;
      if |path| <= |loop| {
        assert |path| < |loop| ==> links(loop[|path| - 1]) == To(loop[|path|]);
        PathsAgree(links, head, path, loop, |path| - 1);
      } else {
        PathsAgree(links, head, path, loop, n);
        assert links(path[n]) == To(path[n + 1]);
        var k :| 0 <= k < |loop| && loop[k] == path[n + 1];
        PathsAgree(links, head, path, loop, k);
      }
    }
  }
}
