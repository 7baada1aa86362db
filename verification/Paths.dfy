/** Walks and reachability in finite directed graphs, given as sets of arcs.
    A walk is a non-empty sequence of vertices in which every two neighbours
    are joined by an arc; vertices may repeat. */
module Paths {

  ghost predicate IsWalk<T>(arcs: set<(T, T)>, p: seq<T>)
  {
    && |p| > 0
    && forall i :: 0 < i < |p| ==> (p[i - 1], p[i]) in arcs
  }

  function Last<T>(p: seq<T>): (x: T)
    requires |p| > 0
  {
    p[|p| - 1]
  }

  ghost predicate WalkFromTo<T>(arcs: set<(T, T)>, p: seq<T>, u: T, v: T)
  {
    IsWalk(arcs, p) && p[0] == u && Last(p) == v
  }

  /** Zero or more arcs lead from `u` to `v`. */
  ghost predicate Reaches<T(!new)>(arcs: set<(T, T)>, u: T, v: T)
  {
    exists p :: WalkFromTo(arcs, p, u, v)
  }

  /** One or more arcs lead from `v` back to `v`. */
  ghost predicate OnCycle<T(!new)>(arcs: set<(T, T)>, v: T)
  {
    exists p :: WalkFromTo(arcs, p, v, v) && |p| > 1
  }

  ghost predicate Closed<T(!new)>(arcs: set<(T, T)>, s: set<T>)
  {
    forall u, v :: (u, v) in arcs && u in s ==> v in s
  }

  ghost function Reverse<T(!new)>(arcs: set<(T, T)>): set<(T, T)>
  {
    set a | a in arcs :: (a.1, a.0)
  }

  lemma ReachesSelf<T(!new)>(arcs: set<(T, T)>, u: T)
    ensures Reaches(arcs, u, u)
  {
    assert WalkFromTo(arcs, [u], u, u);
  }

  lemma ReachesArc<T(!new)>(arcs: set<(T, T)>, u: T, v: T)
    requires (u, v) in arcs
    ensures Reaches(arcs, u, v)
  {
    assert WalkFromTo(arcs, [u, v], u, v);
  }

  lemma JoinWalks<T(!new)>(arcs: set<(T, T)>, p: seq<T>, q: seq<T>)
    requires IsWalk(arcs, p) && IsWalk(arcs, q) && Last(p) == q[0]
    ensures WalkFromTo(arcs, p + q[1..], p[0], Last(q))
  {
    var r := p + q[1..];
    forall i | 0 < i < |r|
      ensures (r[i - 1], r[i]) in arcs
    {
      if i >= |p| {
        assert r[i] == q[i - |p| + 1] && r[i - 1] == q[i - |p|];
      }
    }
  }

  lemma ReachesTransitive<T(!new)>(arcs: set<(T, T)>, u: T, v: T, w: T)
    requires Reaches(arcs, u, v) && Reaches(arcs, v, w)
    ensures Reaches(arcs, u, w)
  {
    var p :| WalkFromTo(arcs, p, u, v);
    var q :| WalkFromTo(arcs, q, v, w);
    JoinWalks(arcs, p, q);
  }

  /** A set that no arc leaves cannot be left by a walk either. */
  lemma {:induction false} WalkStaysInside<T(!new)>(arcs: set<(T, T)>, s: set<T>, p: seq<T>)
    requires IsWalk(arcs, p) && Closed(arcs, s) && p[0] in s
    ensures forall i :: 0 <= i < |p| ==> p[i] in s
  {
    if |p| > 1 {
      var front := p[..|p| - 1];
      assert forall i :: 0 <= i < |front| ==> front[i] == p[i];
      WalkStaysInside(arcs, s, front);
      assert front[|p| - 2] == p[|p| - 2];
    }
  }

  lemma ClosedContainsReachable<T(!new)>(arcs: set<(T, T)>, s: set<T>, u: T, v: T)
    requires Closed(arcs, s) && u in s && Reaches(arcs, u, v)
    ensures v in s
  {
    var p :| WalkFromTo(arcs, p, u, v);
    WalkStaysInside(arcs, s, p);
  }

  /** A cycle through `v` is a first arc followed by a way back. */
  lemma CycleIsArcAndReturn<T(!new)>(arcs: set<(T, T)>, v: T)
    ensures OnCycle(arcs, v) <==> exists w :: (v, w) in arcs && Reaches(arcs, w, v)
  {
    if OnCycle(arcs, v) {
      var p :| WalkFromTo(arcs, p, v, v) && |p| > 1;
      var q := p[1..];
      assert forall i :: 0 <= i < |q| ==> q[i] == p[i + 1];
      assert WalkFromTo(arcs, q, p[1], v);
      assert (v, p[1]) in arcs;
    }
    if w :| (v, w) in arcs && Reaches(arcs, w, v) {
      var q :| WalkFromTo(arcs, q, w, v);
      assert IsWalk(arcs, [v, w]);
      JoinWalks(arcs, [v, w], q);
      assert WalkFromTo(arcs, [v, w] + q[1..], v, v);
    }
  }

  lemma WalkExtend<T(!new)>(arcs: set<(T, T)>, p: seq<T>, v: T)
    requires IsWalk(arcs, p) && (Last(p), v) in arcs
    ensures WalkFromTo(arcs, p + [v], p[0], v)
  {
  }

  lemma WalkFront<T(!new)>(arcs: set<(T, T)>, p: seq<T>, n: nat)
    requires IsWalk(arcs, p) && 0 < n <= |p|
    ensures WalkFromTo(arcs, p[..n], p[0], p[n - 1])
  {
    var q := p[..n];
    assert forall i :: 0 <= i < n ==> q[i] == p[i];
  }

  lemma WalkBack<T(!new)>(arcs: set<(T, T)>, p: seq<T>, n: nat)
    requires IsWalk(arcs, p) && n < |p|
    ensures WalkFromTo(arcs, p[n..], p[n], Last(p))
  {
    var q := p[n..];
    assert forall i :: 0 <= i < |q| ==> q[i] == p[i + n];
  }

  function Backwards<T>(p: seq<T>): (r: seq<T>)
    ensures |r| == |p|
    ensures forall i :: 0 <= i < |r| ==> r[i] == p[|p| - 1 - i]
  {
    seq(|p|, i requires 0 <= i < |p| => p[|p| - 1 - i])
  }

  lemma BackwardsWalk<T(!new)>(arcs: set<(T, T)>, p: seq<T>)
    requires IsWalk(arcs, p)
    ensures WalkFromTo(Reverse(arcs), Backwards(p), Last(p), p[0])
  {
    var r := Backwards(p);
    forall i | 0 < i < |r|
      ensures (r[i - 1], r[i]) in Reverse(arcs)
    {
      var k := |p| - i;
      assert p[k - 1] == r[i] && p[k] == r[i - 1];
      assert (p[k - 1], p[k]) in arcs;
    }
  }

  lemma ReverseTwice<T(!new)>(arcs: set<(T, T)>)
    ensures Reverse(Reverse(arcs)) == arcs
  {
    forall a | a in arcs
      ensures a in Reverse(Reverse(arcs))
    {
      assert (a.1, a.0) in Reverse(arcs);
    }
  }
}
