/** Recursion detection by strongly connected components: the functions that
    can call themselves, directly or through others. */
module Recursion {
  import opened Paths
  import SortedNames

  type CallGraph = map<string, seq<string>>

  function Callees(g: CallGraph, v: string): seq<string>
  {
    if v in g then g[v] else []
  }

  ghost function Calls(g: CallGraph): set<(string, string)>
  {
    set v, i | v in g && 0 <= i < |g[v]| :: (v, g[v][i])
  }

  function Functions(g: CallGraph): set<string>
  {
    g.Keys + set v, i | v in g && 0 <= i < |g[v]| :: g[v][i]
  }

  lemma CallsAreCallees(g: CallGraph, v: string, w: string)
    ensures (v, w) in Calls(g) <==> w in Callees(g, v)
    ensures (v, w) in Calls(g) ==> v in Functions(g) && w in Functions(g)
  {
    if w in Callees(g, v) {
      var i :| 0 <= i < |g[v]| && g[v][i] == w;
      assert (v, g[v][i]) in Calls(g);
    }
  }

  // ------------------------------------------------------------------
  // The search, as a value
  // ------------------------------------------------------------------

  /** Visiting numbers, the nodes still open, and the members of the cycles found
      among the nodes already closed. */
  datatype Search = Search(index: nat, indices: map<string, nat>, open: set<string>, cyclic: set<string>)
  {
    predicate Done(v: string)
    {
      v in indices && v !in open
    }

    /** Open and visited before `node`. */
    predicate Below(v: string, node: string)
    {
      v in open && v in indices && node in indices && indices[v] < indices[node]
    }

    /** Open and visited no earlier than `node`. */
    predicate Above(v: string, node: string)
    {
      v in open && v in indices && node in indices && indices[v] >= indices[node]
    }
  }

  ghost predicate Numbered(s: Search)
  {
    s.open <= s.indices.Keys && forall v :: v in s.indices ==> s.indices[v] < s.index
  }

  /** Closed nodes call only closed nodes. */
  ghost predicate DoneClosed(arcs: set<(string, string)>, s: Search)
  {
    forall v, w :: s.Done(v) && (v, w) in arcs ==> s.Done(w)
  }

  /** All calls of visited nodes have been followed, except from the path. */
  ghost predicate Explored(arcs: set<(string, string)>, s: Search, path: set<string>)
  {
    forall v, w :: v in s.indices && v !in path && (v, w) in arcs ==> w in s.indices
  }

  /** Every open node leads back to a node of the path visited no later. */
  ghost predicate Anchored(arcs: set<(string, string)>, s: Search, path: set<string>)
  {
    forall v {:trigger HasAnchor(arcs, s, path, v)} :: v in s.open ==> HasAnchor(arcs, s, path, v)
  }

  ghost predicate HasAnchor(arcs: set<(string, string)>, s: Search, path: set<string>, v: string)
  {
    exists u :: u in path && s.Above(v, u) && Reaches(arcs, v, u)
  }

  lemma AnchorOf(arcs: set<(string, string)>, s: Search, path: set<string>, v: string) returns (u: string)
    requires HasAnchor(arcs, s, path, v)
    ensures u in path && s.Above(v, u) && Reaches(arcs, v, u)
  {
    u :| u in path && s.Above(v, u) && Reaches(arcs, v, u);
  }

  lemma AnchorIs(arcs: set<(string, string)>, s: Search, path: set<string>, v: string, u: string)
    requires u in path && s.Above(v, u) && Reaches(arcs, v, u)
    ensures HasAnchor(arcs, s, path, v)
  {
  }

  /** Every node of the path leads to the open nodes visited after it. */
  ghost predicate Leading(arcs: set<(string, string)>, s: Search, path: set<string>)
  {
    forall u, v :: u in path && s.Above(v, u) ==> Reaches(arcs, u, v)
  }

  /** The verdict on closed nodes is right. */
  ghost predicate Judged(arcs: set<(string, string)>, s: Search)
  {
    && (forall v :: v in s.cyclic ==> s.Done(v))
    && (forall v :: s.Done(v) ==> (v in s.cyclic <==> OnCycle(arcs, v)))
  }

  /** What the search keeps; `path` holds the calls of the search in progress. */
  ghost predicate Invariant(arcs: set<(string, string)>, s: Search, path: set<string>)
  {
    && Numbered(s) && path <= s.open
    && DoneClosed(arcs, s) && Explored(arcs, s, path)
    && Anchored(arcs, s, path) && Leading(arcs, s, path)
    && Judged(arcs, s)
  }

  function Enter(s: Search, node: string): Search
  {
    Search(s.index + 1, s.indices[node := s.index], s.open + {node}, s.cyclic)
  }

  lemma EnterKeeps(arcs: set<(string, string)>, s: Search, path: set<string>, node: string)
    requires Invariant(arcs, s, path) && node !in s.indices
    requires forall u :: u in path ==> Reaches(arcs, u, node)
    ensures Invariant(arcs, Enter(s, node), path + {node})
  {
    hide Reaches, OnCycle, HasAnchor;
    var t, p := Enter(s, node), path + {node};
    ReachesSelf(arcs, node);
    forall v | v in t.open
      ensures HasAnchor(arcs, t, p, v)
    {
      if v == node {
        AnchorIs(arcs, t, p, v, node);
      } else {
        var u := AnchorOf(arcs, s, path, v);
        AnchorIs(arcs, t, p, v, u);
      }
    }
    forall u, v | u in p && t.Above(v, u)
      ensures Reaches(arcs, u, v)
    {
      if v != node && u != node {
        assert s.Above(v, u);
      }
    }
    forall v
      ensures t.Done(v) <==> s.Done(v)
    {
    }
    assert DoneClosed(arcs, t) && Judged(arcs, t) && Explored(arcs, t, p);
  }

  /** All calls of `node`, the last of the path, have been followed; `low` is the
      earliest open node found to be reached. */
  ghost predicate Followed(arcs: set<(string, string)>, s: Search, path: set<string>, node: string, low: nat)
  {
    && Invariant(arcs, s, path + {node})
    && (forall u :: u in path ==> s.Below(u, node))
    && (forall w :: (node, w) in arcs ==> w in s.indices)
    && LowIsReached(arcs, s, node, low)
    && (forall v, w :: s.Above(v, node) && s.Below(w, node) && (v, w) in arcs ==> low <= s.indices[w])
  }

  ghost predicate LowIsReached(arcs: set<(string, string)>, s: Search, node: string, low: nat)
  {
    node in s.indices && low <= s.indices[node]
    && (low < s.indices[node] ==> exists y :: s.Below(y, node) && s.indices[y] == low && Reaches(arcs, node, y))
  }

  lemma FollowedParts(arcs: set<(string, string)>, s: Search, path: set<string>, node: string, low: nat)
    requires Followed(arcs, s, path, node, low)
    ensures DoneClosed(arcs, s) && Judged(arcs, s)
  {
    hide HasAnchor, Reaches, OnCycle;
  }

  lemma AboveIsMutual(arcs: set<(string, string)>, s: Search, path: set<string>, node: string, low: nat, v: string)
    requires Followed(arcs, s, path, node, low) && s.Above(v, node)
    ensures Reaches(arcs, node, v) && Reaches(arcs, v, node)
  {
    hide Reaches, OnCycle, Explored, DoneClosed, Judged, HasAnchor;
    var u := AnchorOf(arcs, s, path + {node}, v);
    if u != node {
      assert s.Above(node, u);
      assert Reaches(arcs, u, node);
      ReachesTransitive(arcs, v, u, node);
    }
  }

  /** When nothing below `node` was reached, no call leaves the nodes above it
      except into closed ones. */
  lemma AboveIsClosed(arcs: set<(string, string)>, s: Search, path: set<string>, node: string, low: nat, v: string, w: string)
    requires Followed(arcs, s, path, node, low) && low == s.indices[node]
    requires s.Above(v, node) && (v, w) in arcs
    ensures s.Above(w, node) || s.Done(w)
  {
    hide Reaches, OnCycle, Anchored, Leading, Judged;
    assert v in path ==> s.Below(v, node);
    assert v !in path;
    if v != node {
      assert v !in path + {node};
    }
  }

  lemma DoneReachesDone(arcs: set<(string, string)>, s: Search, w: string, v: string)
    requires DoneClosed(arcs, s) && s.Done(w) && Reaches(arcs, w, v)
    ensures s.Done(v)
  {
    var done := set x | x in s.indices && x !in s.open;
    assert Closed(arcs, done);
    ClosedContainsReachable(arcs, done, w, v);
  }

  lemma MutualOnCycle(arcs: set<(string, string)>, u: string, v: string)
    requires u != v && Reaches(arcs, u, v) && Reaches(arcs, v, u)
    ensures OnCycle(arcs, u)
  {
    var p :| WalkFromTo(arcs, p, u, v);
    var q :| WalkFromTo(arcs, q, v, u);
    JoinWalks(arcs, p, q);
    assert WalkFromTo(arcs, p + q[1..], u, u);
  }

  function Component(s: Search, node: string): set<string>
  {
    set v | v in s.open && s.Above(v, node)
  }

  /** A member of the component is recursive exactly when the component has
      another member or its first node calls itself. */
  lemma ComponentCycles(arcs: set<(string, string)>, s: Search, path: set<string>, node: string, low: nat, v: string)
    requires Followed(arcs, s, path, node, low) && low == s.indices[node]
    requires s.Above(v, node)
    ensures OnCycle(arcs, v) <==> |Component(s, node)| > 1 || (node, node) in arcs
  {
    var c := Component(s, node);
    assert s.Above(node, node) && node in c && v in c;
    hide Reaches, Invariant, OnCycle;
    FollowedParts(arcs, s, path, node, low);
    if |c| > 1 {
      var u := Another(c, v);
      AboveIsMutual(arcs, s, path, node, low, v);
      AboveIsMutual(arcs, s, path, node, low, u);
      ReachesTransitive(arcs, v, node, u);
      ReachesTransitive(arcs, u, node, v);
      MutualOnCycle(arcs, v, u);
    } else {
      OnlyOne(c, node, v);
      CycleIsArcAndReturn(arcs, node);
      if (node, node) in arcs {
        ReachesSelf(arcs, node);
      }
      if w :| (node, w) in arcs && Reaches(arcs, w, node) {
        AboveIsClosed(arcs, s, path, node, low, node, w);
        if s.Done(w) {
          DoneReachesDone(arcs, s, w, node);
        } else {
          OnlyOne(c, node, w);
        }
      }
    }
  }

  lemma Another(c: set<string>, x: string) returns (y: string)
    requires |c| > 1 && x in c
    ensures y in c && y != x
  {
    var rest := c - {x};
    assert |rest| == |c| - 1;
    y :| y in rest;
  }

  lemma OnlyOne(c: set<string>, x: string, y: string)
    requires |c| <= 1 && x in c && y in c
    ensures x == y
  {
    assert |c - {x}| == |c| - 1;
    assert y in {x} || y in c - {x};
  }

  /** Close the component of `node`. */
  function Close(s: Search, node: string, cyclic: bool): Search
  {
    s.(open := s.open - Component(s, node), cyclic := s.cyclic + if cyclic then Component(s, node) else {})
  }

  /** `s` only adds to `before`, above `node`. */
  ghost predicate Extends(before: Search, s: Search, node: string)
  {
    && (forall v :: v in before.indices ==> v in s.indices && s.indices[v] == before.indices[v])
    && (forall v :: v in before.open <==> s.Below(v, node))
  }

  /** Closing the component keeps the invariant for the path below. */
  lemma CloseKeeps(arcs: set<(string, string)>, before: Search, s: Search, path: set<string>, node: string, low: nat)
    requires Invariant(arcs, before, path) && Extends(before, s, node)
    requires Followed(arcs, s, path, node, low) && low == s.indices[node]
    ensures Invariant(arcs, Close(s, node, |Component(s, node)| > 1 || (node, node) in arcs), path)
  {
    hide Reaches, OnCycle, HasAnchor, DoneClosed, Explored, Leading, Judged, Anchored;
    var t := Close(s, node, |Component(s, node)| > 1 || (node, node) in arcs);
    forall v
      ensures t.Done(v) <==> s.Done(v) || s.Above(v, node)
      ensures v in t.open <==> v in before.open
      ensures v in t.cyclic <==> v in s.cyclic || (s.Above(v, node) && (|Component(s, node)| > 1 || (node, node) in arcs))
    {
    }
    CloseJudged(arcs, s, path, node, low, t);
    CloseAnchored(arcs, before, s, path, node, t);
    CloseExplored(arcs, s, path, node, low, t);
    assert Numbered(t);
  }

  lemma CloseJudged(arcs: set<(string, string)>, s: Search, path: set<string>, node: string, low: nat, t: Search)
    requires Followed(arcs, s, path, node, low) && low == s.indices[node]
    requires forall v :: t.Done(v) <==> s.Done(v) || s.Above(v, node)
    requires forall v :: v in t.cyclic <==> v in s.cyclic || (s.Above(v, node) && (|Component(s, node)| > 1 || (node, node) in arcs))
    ensures Judged(arcs, t)
  {
    hide Reaches, OnCycle, Followed, Component, Invariant;
    FollowedParts(arcs, s, path, node, low);
    forall v | t.Done(v)
      ensures v in t.cyclic <==> OnCycle(arcs, v)
    {
      if s.Above(v, node) {
        ComponentCycles(arcs, s, path, node, low, v);
      }
    }
  }

  lemma CloseAnchored(arcs: set<(string, string)>, before: Search, s: Search, path: set<string>, node: string, t: Search)
    requires Invariant(arcs, before, path) && Extends(before, s, node)
    requires t.indices == s.indices && forall v :: v in t.open <==> v in before.open
    ensures Anchored(arcs, t, path) && Leading(arcs, t, path) && path <= t.open
  {
    hide Reaches, OnCycle, HasAnchor;
    forall v | v in t.open
      ensures HasAnchor(arcs, t, path, v)
    {
      var u := AnchorOf(arcs, before, path, v);
      AnchorIs(arcs, t, path, v, u);
    }
    forall u, v | u in path && t.Above(v, u)
      ensures Reaches(arcs, u, v)
    {
      assert before.Above(v, u);
    }
  }

  lemma CloseExplored(arcs: set<(string, string)>, s: Search, path: set<string>, node: string, low: nat, t: Search)
    requires Followed(arcs, s, path, node, low) && low == s.indices[node]
    requires t.indices == s.indices && forall v :: t.Done(v) <==> s.Done(v) || s.Above(v, node)
    ensures DoneClosed(arcs, t) && Explored(arcs, t, path)
  {
    forall v, w | t.Done(v) && (v, w) in arcs
      ensures t.Done(w)
    {
      if !s.Done(v) {
        AboveIsClosed(arcs, s, path, node, low, v, w);
      }
    }
    StepsBack(arcs, s, path, node, low);
  }

  lemma StepsBack(arcs: set<(string, string)>, s: Search, path: set<string>, node: string, low: nat)
    requires Followed(arcs, s, path, node, low)
    ensures Explored(arcs, s, path)
  {
    hide Reaches, OnCycle, Anchored, Leading, Judged, DoneClosed;
    forall v, w | v in s.indices && v !in path && (v, w) in arcs
      ensures w in s.indices
    {
      if v != node {
        assert v !in path + {node};
      }
    }
  }

  /** When `node` reaches below itself it stays open, anchored in the path below. */
  lemma StayKeeps(arcs: set<(string, string)>, s: Search, path: set<string>, node: string, low: nat)
    requires Followed(arcs, s, path, node, low) && low < s.indices[node]
    ensures Invariant(arcs, s, path)
  {
    hide Reaches, OnCycle, Explored, DoneClosed, Judged, HasAnchor;
    StepsBack(arcs, s, path, node, low);
    var y :| s.Below(y, node) && s.indices[y] == low && Reaches(arcs, node, y);
    var p := path + {node};
    var z := AnchorOf(arcs, s, p, y);
    assert z in path;
    ReachesTransitive(arcs, node, y, z);
    forall v | v in s.open
      ensures HasAnchor(arcs, s, path, v)
    {
      var u := AnchorOf(arcs, s, p, v);
      if u == node {
        ReachesTransitive(arcs, v, node, z);
        AnchorIs(arcs, s, path, v, z);
      } else {
        AnchorIs(arcs, s, path, v, u);
      }
    }
    assert Leading(arcs, s, path);
  }

  // ------------------------------------------------------------------
  // Following one call
  // ------------------------------------------------------------------

  /** The first calls of `node` have been followed. */
  ghost predicate Following(arcs: set<(string, string)>, before: Search, s: Search, path: set<string>, node: string,
                            low: nat, called: seq<string>)
  {
    && Invariant(arcs, s, path + {node}) && Extends(before, s, node) && node in s.open
    && (forall w :: w in called ==> w in s.indices)
    && LowIsReached(arcs, s, node, low)
    && (forall v, w :: s.Above(v, node) && s.Below(w, node) && (v, w) in arcs && (v == node ==> w in called)
          ==> low <= s.indices[w])
  }

  /** What a finished recursive search of `callee` leaves behind. */
  ghost predicate Searched(arcs: set<(string, string)>, mid: Search, s: Search, callee: string, low: nat)
  {
    && (forall v :: v in mid.indices ==> v in s.indices && s.indices[v] == mid.indices[v])
    && callee in s.indices && s.indices[callee] == mid.index
    && (forall v :: v in mid.open ==> v in s.open)
    && (forall v :: v in s.open && v !in mid.open ==> s.Above(v, callee))
    && LowIsReached(arcs, s, callee, low)
    && (forall v, w :: v in s.open && v !in mid.open && w in mid.open && w in s.indices && (v, w) in arcs
          ==> low <= s.indices[w])
  }

  lemma PathReaches(arcs: set<(string, string)>, before: Search, s: Search, path: set<string>, node: string,
                    low: nat, called: seq<string>, callee: string)
    requires Following(arcs, before, s, path, node, low, called) && (node, callee) in arcs && path <= before.open
    ensures forall u :: u in path + {node} ==> Reaches(arcs, u, callee)
  {
    hide Reaches, OnCycle, HasAnchor;
    ReachesArc(arcs, node, callee);
    forall u | u in path
      ensures Reaches(arcs, u, callee)
    {
      assert s.Below(u, node) && s.Above(node, u);
      ReachesTransitive(arcs, u, node, callee);
    }
  }

  lemma FollowedNew(arcs: set<(string, string)>, before: Search, mid: Search, s: Search, path: set<string>, node: string,
                    low: nat, called: seq<string>, callee: string, calleeLow: nat)
    requires Following(arcs, before, mid, path, node, low, called) && (node, callee) in arcs
    requires Searched(arcs, mid, s, callee, calleeLow) && Invariant(arcs, s, path + {node})
    ensures Following(arcs, before, s, path, node, if calleeLow < low then calleeLow else low, called + [callee])
  {
    hide Reaches, OnCycle, HasAnchor, Explored, DoneClosed, Judged, Leading, Anchored;
    var least := if calleeLow < low then calleeLow else low;
    assert mid.indices[node] < mid.index;
    assert s.indices[node] < s.indices[callee];
    forall v
      ensures v in before.open <==> s.Below(v, node)
    {
      assert v in s.open && v !in mid.open ==> s.Above(v, callee);
    }
    if least < s.indices[node] {
      if calleeLow < low {
        var y :| s.Below(y, callee) && s.indices[y] == calleeLow && Reaches(arcs, callee, y);
        ReachesArc(arcs, node, callee);
        ReachesTransitive(arcs, node, callee, y);
        assert s.Below(y, node);
      } else {
        var y :| mid.Below(y, node) && mid.indices[y] == low && Reaches(arcs, node, y);
        assert s.Below(y, node);
      }
    }
    forall v, w | s.Above(v, node) && s.Below(w, node) && (v, w) in arcs && (v == node ==> w in called + [callee])
      ensures least <= s.indices[w]
    {
      assert w in before.open && mid.Below(w, node);
      if v in mid.open {
        assert mid.Above(v, node);
      }
    }
  }

  lemma FollowedOld(arcs: set<(string, string)>, before: Search, s: Search, path: set<string>, node: string,
                    low: nat, called: seq<string>, callee: string)
    requires Following(arcs, before, s, path, node, low, called) && (node, callee) in arcs && callee in s.indices
    ensures var least := if callee in s.open && s.indices[callee] < low then s.indices[callee] else low;
            Following(arcs, before, s, path, node, least, called + [callee])
  {
    hide Reaches, OnCycle, HasAnchor, Explored, DoneClosed, Judged, Leading, Anchored;
    if callee in s.open && s.indices[callee] < low {
      ReachesArc(arcs, node, callee);
      assert s.Below(callee, node);
    }
  }

  lemma AllFollowed(arcs: set<(string, string)>, before: Search, s: Search, path: set<string>, node: string,
                    low: nat, called: seq<string>)
    requires Following(arcs, before, s, path, node, low, called) && path <= before.open
    requires forall w :: (node, w) in arcs <==> w in called
    ensures Followed(arcs, s, path, node, low)
  {
    hide Reaches, OnCycle, HasAnchor, Explored, DoneClosed, Judged, Leading, Anchored;
  }

  lemma FollowStarts(arcs: set<(string, string)>, s: Search, path: set<string>, node: string)
    requires Invariant(arcs, s, path) && node !in s.indices
    requires forall u :: u in path ==> Reaches(arcs, u, node)
    ensures Following(arcs, s, Enter(s, node), path, node, s.index, [])
  {
    EnterKeeps(arcs, s, path, node);
    hide Reaches, OnCycle, HasAnchor, Explored, DoneClosed, Judged, Leading, Anchored;
  }

  // ------------------------------------------------------------------
  // The search itself
  // ------------------------------------------------------------------

  function UnionOf(sets: seq<set<string>>): set<string>
  {
    if sets == [] then {} else UnionOf(sets[..|sets| - 1]) + sets[|sets| - 1]
  }

  class RecursionFinder {
    const graph: CallGraph
    var index: nat
    var indices: map<string, nat>
    var lowlink: map<string, nat>
    var onStack: set<string>
    var stack: seq<string>
    var cycles: seq<set<string>>

    constructor (g: CallGraph)
      ensures graph == g && Valid()
      ensures State() == Search(0, map[], {}, {})
    {
      graph := g;
      index := 0;
      indices := map[];
      lowlink := map[];
      onStack := {};
      stack := [];
      cycles := [];
    }

    ghost function State(): Search
      reads this
    {
      Search(index, indices, onStack, UnionOf(cycles))
    }

    /** The stack lists the open nodes in the order in which they were visited. */
    ghost predicate Valid()
      reads this
    {
      && indices.Keys <= Functions(graph) && lowlink.Keys == indices.Keys
      && onStack <= indices.Keys
      && (forall v :: v in stack <==> v in onStack)
      && StackOrdered(stack, indices)
    }

    /** Visit `node` and everything it calls; `path` holds the callers. */
    method StrongConnect(node: string, ghost path: set<string>)
      requires Valid() && node in Functions(graph) && node !in indices
      requires Invariant(Calls(graph), State(), path)
      requires forall u :: u in path ==> Reaches(Calls(graph), u, node)
      modifies this
      ensures Valid() && Invariant(Calls(graph), State(), path)
      ensures node in lowlink && Searched(Calls(graph), old(State()), State(), node, lowlink[node])
      ensures forall v :: v in old(lowlink) ==> v in lowlink && lowlink[v] == old(lowlink[v])
      ensures old(stack) <= stack
      decreases Functions(graph) - indices.Keys, 0
    {
      hide Invariant, Following, Followed, Searched, Reaches, LowIsReached, Functions, Calls, StackOrdered, UnionOf,
           Component, Close;
      ghost var before := State();
      ghost var arcs := Calls(graph);
      FollowStarts(arcs, before, path, node);
      PathIsOpen(arcs, before, path);
      Visit(node);
      var callees := Callees(graph, node);
      var i := 0;
      while i < |callees|
        invariant i <= |callees|
        invariant Valid() && node in lowlink && node in indices
        invariant Following(arcs, before, State(), path, node, lowlink[node], callees[..i])
        invariant forall v :: v in old(lowlink) ==> v in lowlink && v != node && lowlink[v] == old(lowlink[v])
        invariant old(stack) + [node] <= stack
        invariant indices.Keys >= old(indices).Keys + {node}
        invariant indices[node] == old(index)
      {
        CallsAreCallees(graph, node, callees[i]);
        assert callees[..i + 1] == callees[..i] + [callees[i]];
        FollowCall(node, callees[i], path, before, callees[..i]);
        i := i + 1;
      }
      assert callees[..i] == callees;
      forall w
        ensures (node, w) in arcs <==> w in callees
      {
        CallsAreCallees(graph, node, w);
      }
      AllFollowed(arcs, before, State(), path, node, lowlink[node], callees);
      FollowingParts(arcs, before, State(), path, node, lowlink[node], callees);
      if lowlink[node] == indices[node] {
        CloseKeeps(arcs, before, State(), path, node, lowlink[node]);
        SearchedClosed(arcs, before, State(), path, node, lowlink[node]);
        PopComponent(node, |old(stack)|);
      } else {
        LowBelow(arcs, State(), node, lowlink[node]);
        StayKeeps(arcs, State(), path, node, lowlink[node]);
        SearchedOpen(arcs, before, State(), path, node, lowlink[node]);
      }
    }

    /** One call of `node`: search the callee if it is new, and take over the
        earliest open node it leads to. */
    method FollowCall(node: string, callee: string, ghost path: set<string>, ghost before: Search,
                      ghost called: seq<string>)
      requires Valid() && node in lowlink && node in indices && path <= before.open
      requires (node, callee) in Calls(graph) && callee in Functions(graph)
      requires Following(Calls(graph), before, State(), path, node, lowlink[node], called)
      modifies this
      ensures Valid() && node in lowlink && node in indices && indices[node] == old(indices[node])
      ensures Following(Calls(graph), before, State(), path, node, lowlink[node], called + [callee])
      ensures forall v :: v in old(lowlink) && v != node ==> v in lowlink && lowlink[v] == old(lowlink[v])
      ensures old(stack) <= stack && old(indices).Keys <= indices.Keys
      decreases Functions(graph) - indices.Keys, 1
    {
      hide Invariant, Following, Followed, Searched, Reaches, LowIsReached, Functions, Calls, StackOrdered, UnionOf;
      ghost var mid := State();
      ghost var arcs := Calls(graph);
      ghost var low := lowlink[node];
      if callee !in indices {
        PathReaches(arcs, before, mid, path, node, low, called, callee);
        FollowingParts(arcs, before, mid, path, node, low, called);
        StrongConnect(callee, path + {node});
        FollowedNew(arcs, before, mid, State(), path, node, low, called, callee, lowlink[callee]);
        SearchedParts(arcs, mid, State(), callee, lowlink[callee]);
        lowlink := lowlink[node := if lowlink[callee] < lowlink[node] then lowlink[callee] else lowlink[node]];
      } else {
        FollowedOld(arcs, before, mid, path, node, low, called, callee);
        if callee in onStack {
          lowlink := lowlink[node := if indices[callee] < lowlink[node] then indices[callee] else lowlink[node]];
        }
      }
    }

    /** Number a node, put it on the stack, and let it be its own lowlink. */
    method Visit(node: string)
      requires Valid() && node in Functions(graph) && node !in indices
      requires Numbered(State())
      modifies this
      ensures Valid() && State() == Enter(old(State()), node)
      ensures stack == old(stack) + [node] && lowlink == old(lowlink)[node := old(index)]
    {
      indices := indices[node := index];
      lowlink := lowlink[node := index];
      index := index + 1;
      stack := stack + [node];
      onStack := onStack + {node};
    }

    /** Pop everything down to `node` and record it when it is a cycle. */
    method PopComponent(node: string, ghost base: nat)
      requires Valid() && node in indices && base < |stack| && stack[base] == node
      modifies this`stack, this`onStack, this`cycles
      ensures Valid() && stack == old(stack[..base])
      ensures State() == Close(old(State()), node, |Component(old(State()), node)| > 1 || (node, node) in Calls(graph))
    {
      hide StackOrdered, Functions, Calls, Component, UnionOf;
      ComponentIsTop(State(), stack, node, base);
      StackIncludes(stack, indices, base);
      ComponentHasNode(State(), node);
      var component := PopTo(node, base);
      CallsAreCallees(graph, node, node);
      if |component| > 1 || (|component| == 1 && node in Callees(graph, node)) {
        UnionSnoc(cycles, component);
        cycles := cycles + [component];
      }
    }

    /** Pop the stack down to and including `node`. */
    method PopTo(node: string, ghost base: nat) returns (component: set<string>)
      requires Valid() && base < |stack| && stack[base] == node
      modifies this`stack, this`onStack
      ensures Valid() && stack == old(stack[..base]) && onStack == set v | v in stack
      ensures component == set v | v in old(stack)[base..]
      ensures node in component
    {
      hide StackOrdered, Functions, UnionOf;
      component := {};
      ghost var top := stack;
      assert top[|stack|..] == [];
      StackIncludes(stack, indices, base);
      while true
        invariant base < |stack| <= |top| && stack == top[..|stack|]
        invariant Valid()
        invariant forall v :: v in component <==> v in top[|stack|..]
        decreases |stack|
      {
        var w := stack[|stack| - 1];
        assert top[|stack| - 1..] == [w] + top[|stack|..];
        StackWithoutLast(stack, indices);
        NodeOnce(top, indices, base, |stack| - 1);
        stack := stack[..|stack| - 1];
        onStack := onStack - {w};
        component := component + {w};
        if w == node {
          break;
        }
      }
      assert |stack| == base;
    }
  }

  lemma UnionSnoc(sets: seq<set<string>>, more: set<string>)
    ensures UnionOf(sets + [more]) == UnionOf(sets) + more
  {
    assert (sets + [more])[..|sets|] == sets;
  }

  lemma ComponentHasNode(s: Search, node: string)
    requires node in s.open && node in s.indices
    ensures node in Component(s, node) && |Component(s, node)| >= 1
  {
    assert s.Above(node, node);
  }

  lemma StackIncludes(stack: seq<string>, indices: map<string, nat>, base: nat)
    requires base < |stack|
    ensures stack[base] in stack
  {
  }

  /** Only position `base` of an ordered stack holds its node. */
  lemma NodeOnce(stack: seq<string>, indices: map<string, nat>, base: nat, k: nat)
    requires StackOrdered(stack, indices) && base <= k < |stack|
    ensures stack[k] == stack[base] <==> k == base
  {
  }

  ghost predicate StackOrdered(stack: seq<string>, indices: map<string, nat>)
  {
    forall i, j :: 0 <= i < j < |stack| ==>
      stack[i] in indices && stack[j] in indices && indices[stack[i]] < indices[stack[j]]
  }

  lemma StackWithoutLast(stack: seq<string>, indices: map<string, nat>)
    requires StackOrdered(stack, indices) && stack != []
    ensures StackOrdered(stack[..|stack| - 1], indices)
    ensures Last(stack) !in stack[..|stack| - 1]
    ensures forall v :: v in stack <==> v == Last(stack) || v in stack[..|stack| - 1]
  {
    assert stack == stack[..|stack| - 1] + [Last(stack)];
  }

  /** The component of `node` is what lies from `node` up on the stack. */
  lemma ComponentIsTop(s: Search, stack: seq<string>, node: string, base: nat)
    requires StackOrdered(stack, s.indices) && s.open <= s.indices.Keys
    requires forall v :: v in stack <==> v in s.open
    requires base < |stack| && stack[base] == node
    ensures Component(s, node) == set v | v in stack[base..]
    ensures s.open - Component(s, node) == set v | v in stack[..base]
  {
    assert stack == stack[..base] + stack[base..];
    forall v | v in stack
      ensures s.Above(v, node) <==> v in stack[base..]
      ensures v in stack[..base] ==> !s.Above(v, node)
    {
      var i :| 0 <= i < |stack| && stack[i] == v;
      if i >= base {
        assert stack[base..][i - base] == v;
      }
    }
  }

  lemma PathIsOpen(arcs: set<(string, string)>, s: Search, path: set<string>)
    requires Invariant(arcs, s, path)
    ensures path <= s.open && Numbered(s)
  {
    hide HasAnchor, Reaches, OnCycle;
  }

  lemma FollowingParts(arcs: set<(string, string)>, before: Search, s: Search, path: set<string>, node: string,
                       low: nat, called: seq<string>)
    requires Following(arcs, before, s, path, node, low, called)
    ensures Invariant(arcs, s, path + {node}) && Extends(before, s, node) && node in s.open
    ensures LowIsReached(arcs, s, node, low)
  {
    hide Invariant, Extends, LowIsReached;
  }

  lemma SearchedParts(arcs: set<(string, string)>, mid: Search, s: Search, callee: string, low: nat)
    requires Searched(arcs, mid, s, callee, low)
    ensures forall v :: v in mid.indices ==> v in s.indices && s.indices[v] == mid.indices[v]
  {
    hide LowIsReached;
  }

  lemma LowBelow(arcs: set<(string, string)>, s: Search, node: string, low: nat)
    requires LowIsReached(arcs, s, node, low) && low != s.indices[node]
    ensures low < s.indices[node]
  {
  }

  lemma SearchedClosed(arcs: set<(string, string)>, before: Search, s: Search, path: set<string>, node: string, low: nat)
    requires Followed(arcs, s, path, node, low) && Extends(before, s, node) && low == s.indices[node]
    requires s.indices[node] == before.index
    ensures Searched(arcs, before, Close(s, node, |Component(s, node)| > 1 || (node, node) in arcs), node, low)
  {
    hide HasAnchor, Reaches, OnCycle, Invariant;
    PathIsOpen(arcs, s, path + {node});
  }

  lemma SearchedOpen(arcs: set<(string, string)>, before: Search, s: Search, path: set<string>, node: string, low: nat)
    requires Followed(arcs, s, path, node, low) && Extends(before, s, node) && low < s.indices[node]
    requires s.indices[node] == before.index && s.open <= s.indices.Keys
    ensures Searched(arcs, before, s, node, low)
  {
    hide HasAnchor, Reaches, OnCycle, Invariant;
  }

  ghost predicate CallsDirectly(g: CallGraph, v: string, w: string)
  {
    v in g && exists i :: 0 <= i < |g[v]| && g[v][i] == w
  }

  /** Each function calls the next, and the last is the first. */
  ghost predicate CallCycle(g: CallGraph, p: seq<string>)
  {
    |p| > 1 && p[0] == p[|p| - 1] && forall k :: 0 < k < |p| ==> CallsDirectly(g, p[k - 1], p[k])
  }

  lemma CyclesAreCallCycles(g: CallGraph, v: string)
    ensures OnCycle(Calls(g), v) <==> exists p :: CallCycle(g, p) && p[0] == v
  {
    forall u, w
      ensures (u, w) in Calls(g) <==> CallsDirectly(g, u, w)
    {
      CallsAreCallees(g, u, w);
    }
    hide Calls, CallsDirectly;
    if OnCycle(Calls(g), v) {
      var p :| WalkFromTo(Calls(g), p, v, v) && |p| > 1;
      assert CallCycle(g, p) && p[0] == v;
    }
    if p :| CallCycle(g, p) && p[0] == v {
      assert WalkFromTo(Calls(g), p, v, v);
    }
  }

  /** The functions that can call themselves, directly or through others, sorted. */
  method FunctionsInRecursionCycles(g: CallGraph) returns (names: seq<string>)
    ensures SortedNames.Ascending(names)
    ensures forall v :: v in names <==> exists p :: CallCycle(g, p) && p[0] == v
  {
    var finder := new RecursionFinder(g);
    ghost var arcs := Calls(g);
    EmptySearch(arcs);
    var left := g.Keys;
    while left != {}
      invariant finder.graph == g && finder.Valid() && left <= g.Keys
      invariant Invariant(arcs, finder.State(), {})
      invariant forall v :: v in g && v !in left ==> v in finder.indices
      decreases left
    {
      hide Invariant, Reaches, Searched;
      var name :| name in left;
      ghost var before := finder.State();
      if name !in finder.indices {
        finder.StrongConnect(name, {});
        SearchedParts(arcs, before, finder.State(), name, finder.lowlink[name]);
        SearchedVisits(arcs, before, finder.State(), name, finder.lowlink[name]);
      }
      left := left - {name};
    }
    var found := UnionOf(finder.cycles);
    SearchComplete(g, finder.State());
    names := SortedNames.Sort(found);
    forall v
      ensures v in names <==> exists p :: CallCycle(g, p) && p[0] == v
    {
      CyclesAreCallCycles(g, v);
    }
  }

  lemma SearchedVisits(arcs: set<(string, string)>, mid: Search, s: Search, callee: string, low: nat)
    requires Searched(arcs, mid, s, callee, low)
    ensures callee in s.indices
  {
    hide LowIsReached;
  }

  lemma EmptySearch(arcs: set<(string, string)>)
    ensures Invariant(arcs, Search(0, map[], {}, {}), {})
  {
  }

  /** Once every function is visited and none is open, the verdict covers all. */
  lemma SearchComplete(g: CallGraph, s: Search)
    requires Invariant(Calls(g), s, {}) && forall v :: v in g ==> v in s.indices
    ensures forall v :: v in s.cyclic <==> OnCycle(Calls(g), v)
  {
    hide HasAnchor, Reaches;
    assert s.open == {} by {
      NothingOpen(Calls(g), s);
    }
    forall v | OnCycle(Calls(g), v)
      ensures v in s.indices
    {
      CycleIsArcAndReturn(Calls(g), v);
      var w :| (v, w) in Calls(g) && Reaches(Calls(g), w, v);
      CallsAreCallees(g, v, w);
    }
  }

  lemma NothingOpen(arcs: set<(string, string)>, s: Search)
    requires Invariant(arcs, s, {})
    ensures s.open == {}
  {
    hide Reaches, OnCycle;
    forall v
      ensures v !in s.open
    {
      assert v in s.open ==> HasAnchor(arcs, s, {}, v);
    }
  }
}
