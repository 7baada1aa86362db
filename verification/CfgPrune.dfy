/** Pruning. Collapsing an empty block that only falls through keeps every path
    up to the collapsed block, and so keeps runs, reachability, well-formedness
    and every dataflow solution on the blocks that stay. */
module CfgPrune {
  import opened Collections
  import opened Ast
  import opened Runs
  import opened Paths
  import opened CfgSpec
  import opened CfgNodes
  import opened CfgPaths
  import opened CfgTheorem
  import opened FlowTheory

  /** The block may be removed: it holds nothing and only falls through elsewhere. */
  predicate Collapsible(g: Cfg, b: int)
  {
    && b != ENTRY && b != EXIT
    && b in g.blocks && g.blocks[b] == []
    && var out := Successors(g.edges, b);
       |out| == 1 && out[0].kind == Fallthrough && out[0].target != b
  }

  function Retarget(edges: seq<Edge>, b: int, t: int): (out: seq<Edge>)
    ensures |out| == |edges|
    ensures forall i :: 0 <= i < |out| ==> out[i] == if edges[i].target == b then edges[i].(target := t) else edges[i]
  {
    seq(|edges|, i requires 0 <= i < |edges| => if edges[i].target == b then edges[i].(target := t) else edges[i])
  }

  function WithoutSource(edges: seq<Edge>, b: int): (out: seq<Edge>)
    ensures forall e :: e in out <==> e in edges && e.source != b
  {
    if edges == [] then []
    else (if edges[0].source == b then [] else [edges[0]]) + WithoutSource(edges[1..], b)
  }

  function WithoutBlock(order: seq<int>, b: int): (out: seq<int>)
    ensures forall x :: x in out <==> x in order && x != b
    ensures (forall i, j :: 0 <= i < j < |order| ==> order[i] != order[j])
            ==> forall i, j :: 0 <= i < j < |out| ==> out[i] != out[j]
  {
    if order == [] then []
    else
      var rest := WithoutBlock(order[1..], b);
      assert (forall i, j :: 0 <= i < j < |order| ==> order[i] != order[j]) ==> order[0] !in order[1..];
      if order[0] == b then rest else [order[0]] + rest
  }

  function Collapse(g: Cfg, b: int): Cfg
    requires Collapsible(g, b)
  {
    Cfg(WithoutBlock(g.order, b),
        g.blocks - {b},
        WithoutSource(Retarget(g.edges, b, Successors(g.edges, b)[0].target), b))
  }

  ghost predicate PruneSteps(gs: seq<Cfg>)
  {
    && |gs| > 0
    && forall i :: 0 < i < |gs| ==> CollapseStep(gs[i - 1], gs[i])
  }

  ghost predicate CollapseStep(g: Cfg, h: Cfg)
  {
    exists b :: Collapsible(g, b) && h == Collapse(g, b)
  }

  /** `h` is `g` after any number of collapses. */
  ghost predicate PrunedTo(g: Cfg, h: Cfg)
  {
    exists gs :: PruneSteps(gs) && gs[0] == g && Last(gs) == h
  }

  // ------------------------------------------------------------------
  // One block bypassed
  // ------------------------------------------------------------------

  /** `d` is `c` with every way through `b` replaced by a direct arc. */
  ghost predicate Bypass(c: set<(int, int)>, d: set<(int, int)>, b: int)
  {
    && (b, b) !in c
    && (forall x, y :: (x, y) in d <==> x != b && y != b && ((x, y) in c || ((x, b) in c && (b, y) in c)))
  }

  lemma CollapseBypasses(g: Cfg, b: int)
    requires Collapsible(g, b)
    ensures Bypass(g.Arcs(), Collapse(g, b).Arcs(), b)
  {
    var c, d := g.Arcs(), Collapse(g, b).Arcs();
    var out := Successors(g.edges, b);
    var t := out[0].target;
    assert out[0] in out;
    forall y
      ensures (b, y) in c <==> y == t
    {
      if (b, y) in c {
        var e :| e in g.edges && e.source == b && e.target == y;
        assert e in out;
      }
      assert (out[0].source, out[0].target) in c;
    }
    forall x, y
      ensures (x, y) in d <==> x != b && y != b && ((x, y) in c || ((x, b) in c && (b, y) in c))
    {
      CollapsedArc(g, b, t, x, y);
    }
  }

  lemma CollapsedArc(g: Cfg, b: int, t: int, x: int, y: int)
    requires Collapsible(g, b) && t == Successors(g.edges, b)[0].target
    ensures (x, y) in Collapse(g, b).Arcs()
            <==> x != b && y != b && ((x, y) in g.Arcs() || ((x, b) in g.Arcs() && y == t))
  {
    var moved := Retarget(g.edges, b, t);
    var left := WithoutSource(moved, b);
    assert Collapse(g, b).edges == left;
    hide Collapse, Collapsible;
    RetargetedArc(g.edges, b, t, x, y);
    ArcOfEdge(left, x, y);
    ArcOfEdge(moved, x, y);
  }

  lemma RetargetedArc(edges: seq<Edge>, b: int, t: int, x: int, y: int)
    requires b != t
    ensures (x, y) in ArcsOf(Retarget(edges, b, t))
            <==> y != b && ((x, y) in ArcsOf(edges) || ((x, b) in ArcsOf(edges) && y == t))
  {
    var moved := Retarget(edges, b, t);
    ArcOfEdge(moved, x, y);
    ArcOfEdge(edges, x, y);
    ArcOfEdge(edges, x, b);
    if (x, y) in ArcsOf(moved) {
      var e :| e in moved && e.source == x && e.target == y;
      var i :| 0 <= i < |moved| && moved[i] == e;
      assert edges[i] in edges;
    }
    if y != b && ((x, y) in ArcsOf(edges) || ((x, b) in ArcsOf(edges) && y == t)) {
      var e :| e in edges && e.source == x && (e.target == y || (e.target == b && y == t));
      var i :| 0 <= i < |edges| && edges[i] == e;
      assert moved[i] in moved;
    }
  }

  function Erase(p: seq<int>, b: int): seq<int>
  {
    if p == [] then []
    else Erase(p[..|p| - 1], b) + if p[|p| - 1] == b then [] else [p[|p| - 1]]
  }

  lemma {:induction false} EraseEnds(p: seq<int>, b: int)
    ensures |p| > 0 && Last(p) != b ==> Erase(p, b) != [] && Last(Erase(p, b)) == Last(p)
    ensures |p| > 0 && p[0] != b ==> Erase(p, b) != [] && Erase(p, b)[0] == p[0]
    decreases |p|
  {
    if p != [] {
      EraseEnds(p[..|p| - 1], b);
      if |p| > 1 {
        assert p[..|p| - 1][0] == p[0];
      } else {
        assert Erase(p[..0], b) == [];
      }
    }
  }

  /** Leaving out the bypassed block turns a walk into a walk. */
  lemma {:induction false} EraseWalk(c: set<(int, int)>, d: set<(int, int)>, b: int, p: seq<int>)
    requires Bypass(c, d, b) && IsWalk(c, p)
    ensures Erase(p, b) != [] ==> IsWalk(d, Erase(p, b))
    decreases |p|
  {
    var x := Last(p);
    var front := p[..|p| - 1];
    if front == [] {
      assert Erase(front, b) == [];
    } else {
      WalkFront(c, p, |front|);
      EraseWalk(c, d, b, front);
      var y := Last(front);
      assert (y, x) in c by {
        assert y == p[|p| - 2] && x == p[|p| - 1];
      }
      if x != b {
        if y != b {
          EraseEnds(front, b);
          assert (y, x) in d;
        } else if |front| > 1 {
          var z := front[|front| - 2];
          assert z == p[|p| - 3];
          assert (z, y) in c;
          EraseEnds(front[..|front| - 1], b);
          assert Erase(front, b) == Erase(front[..|front| - 1], b);
          assert Last(front[..|front| - 1]) == z;
          assert (z, x) in d;
        } else {
          assert front == [b] && Erase(front[..0], b) == [];
          assert Erase(front, b) == [];
        }
      }
    }
  }

  /** Every walk of the smaller graph is such a walk with the block left out. */
  lemma {:induction false} ExpandWalk(c: set<(int, int)>, d: set<(int, int)>, b: int, q: seq<int>) returns (p: seq<int>)
    requires Bypass(c, d, b) && IsWalk(d, q) && q[0] != b
    ensures WalkFromTo(c, p, q[0], Last(q)) && Erase(p, b) == q
    decreases |q|
  {
    var x := Last(q);
    var front := q[..|q| - 1];
    if front == [] {
      p := q;
      assert Erase(q[..0], b) == [];
      assert q == [x];
    } else {
      WalkFront(d, q, |front|);
      var y := Last(front);
      assert (y, x) in d by {
        assert y == q[|q| - 2] && x == q[|q| - 1];
      }
      var r := ExpandWalk(c, d, b, front);
      if (y, x) in c {
        p := r + [x];
        assert p[..|r|] == r;
      } else {
        WalkExtend(c, r, b);
        assert (r + [b])[..|r|] == r;
        p := r + [b] + [x];
        WalkExtend(c, r + [b], x);
        assert p[..|r| + 1] == r + [b];
      }
      assert q == front + [x];
    }
  }

  // ------------------------------------------------------------------
  // What one collapse keeps
  // ------------------------------------------------------------------

  lemma BypassReach(c: set<(int, int)>, d: set<(int, int)>, b: int, u: int, v: int)
    requires Bypass(c, d, b) && u != b && v != b
    ensures Reaches(c, u, v) <==> Reaches(d, u, v)
  {
    if Reaches(c, u, v) {
      var p :| WalkFromTo(c, p, u, v);
      EraseWalk(c, d, b, p);
      EraseEnds(p, b);
      assert WalkFromTo(d, Erase(p, b), u, v);
    }
    if Reaches(d, u, v) {
      var q :| WalkFromTo(d, q, u, v);
      var p := ExpandWalk(c, d, b, q);
    }
  }

  ghost predicate IdentityAt<F(!new)>(t: Transfer<F>, b: int)
  {
    forall s :: t(b, s) == s
  }

  lemma {:induction false} FoldErase<F(!new)>(t: Transfer<F>, p: seq<int>, b: int)
    requires IdentityAt(t, b)
    ensures Fold(t, p) == Fold(t, Erase(p, b))
    decreases |p|
  {
    if p != [] {
      var front := p[..|p| - 1];
      FoldErase(t, front, b);
      if Last(p) != b {
        assert Erase(p, b)[..|Erase(p, b)| - 1] == Erase(front, b);
      } else {
        assert Erase(p, b) == Erase(front, b);
      }
    }
  }

  lemma BypassFacts<F(!new)>(t: Transfer<F>, c: set<(int, int)>, d: set<(int, int)>, b: int, x: int, f: F)
    requires Bypass(c, d, b) && IdentityAt(t, b) && x != b
    ensures PathFact(t, c, x, f) <==> PathFact(t, d, x, f)
  {
    if PathFact(t, c, x, f) {
      var p :| IsWalk(c, p) && Last(p) == x && f in Fold(t, p);
      EraseEnds(p, b);
      EraseWalk(c, d, b, p);
      FoldErase(t, p, b);
    }
    if PathFact(t, d, x, f) {
      var q :| IsWalk(d, q) && Last(q) == x && f in Fold(t, q);
      if q[0] == b {
        BypassFree(d, c, b, q);
      }
      var p := ExpandWalk(c, d, b, q);
      FoldErase(t, p, b);
    }
  }

  /** The end of an idle block passes on exactly what enters it. */
  lemma IdlePasses<F(!new)>(t: Transfer<F>, c: set<(int, int)>, b: int, f: F)
    requires IdentityAt(t, b)
    ensures PathFact(t, c, b, f) <==> EnteringFact(t, c, b, f)
  {
    if PathFact(t, c, b, f) {
      var p :| IsWalk(c, p) && Last(p) == b && f in Fold(t, p);
      var n := |p| - 1;
      assert f in Fold(t, p[..n]);
      WalkFront(c, p, n);
      assert (p[n - 1], b) in c && PathFact(t, c, p[n - 1], f);
    }
    if EnteringFact(t, c, b, f) {
      var u :| (u, b) in c && PathFact(t, c, u, f);
      var p :| IsWalk(c, p) && Last(p) == u && f in Fold(t, p);
      WalkExtend(c, p, b);
      assert (p + [b])[..|p|] == p;
    }
  }

  lemma BypassEntering<F(!new)>(t: Transfer<F>, c: set<(int, int)>, d: set<(int, int)>, b: int, x: int, f: F)
    requires Bypass(c, d, b) && IdentityAt(t, b) && x != b
    ensures EnteringFact(t, c, x, f) <==> EnteringFact(t, d, x, f)
  {
    hide PathFact, IdentityAt;
    IdlePasses(t, c, b, f);
    if EnteringFact(t, c, x, f) {
      var u :| (u, x) in c && PathFact(t, c, u, f);
      if u == b {
        u :| (u, b) in c && PathFact(t, c, u, f);
      }
      BypassFacts(t, c, d, b, u, f);
      assert (u, x) in d;
    }
    if EnteringFact(t, d, x, f) {
      var u :| (u, x) in d && PathFact(t, d, u, f);
      BypassFacts(t, c, d, b, u, f);
      if (u, x) !in c {
        assert (u, b) in c && (b, x) in c;
      }
    }
  }

  lemma BypassFree(d: set<(int, int)>, c: set<(int, int)>, b: int, q: seq<int>)
    requires Bypass(c, d, b) && IsWalk(d, q) && Last(q) != b
    ensures q[0] != b
  {
    if |q| > 1 {
      var x, y := q[0], q[1];
      assert (q[1 - 1], q[1]) in d;
      assert (x, y) in d;
    } else {
      assert Last(q) == q[0];
    }
  }

  /** Bypassing looks the same from both ends of the arcs. */
  lemma BypassReversed(c: set<(int, int)>, d: set<(int, int)>, b: int)
    requires Bypass(c, d, b)
    ensures Bypass(Reverse(c), Reverse(d), b)
  {
    forall x, y
      ensures (x, y) in Reverse(c) <==> (y, x) in c
      ensures (x, y) in Reverse(d) <==> (y, x) in d
    {
      ReversedArc(c, x, y);
      ReversedArc(d, x, y);
    }
  }

  lemma ReversedArc(c: set<(int, int)>, x: int, y: int)
    ensures (x, y) in Reverse(c) <==> (y, x) in c
  {
    if (y, x) in c {
      assert ((y, x).1, (y, x).0) in Reverse(c);
    }
  }

  lemma {:induction false} TraceAppend(n: Net, p: seq<int>, q: seq<int>)
    ensures Trace(n, p + q) == Trace(n, p) + Trace(n, q)
  {
    if p == [] {
      assert p + q == q;
    } else {
      assert (p + q)[1..] == p[1..] + q;
      TraceAppend(n, p[1..], q);
    }
  }

  lemma {:induction false} TraceErase(n: Net, m: Net, p: seq<int>, b: int)
    requires At(n, b) == [] && forall x :: x != b ==> At(n, x) == At(m, x)
    ensures Trace(n, p) == Trace(m, Erase(p, b))
    decreases |p|
  {
    if p != [] {
      var front, x := p[..|p| - 1], Last(p);
      TraceErase(n, m, front, b);
      assert p == front + [x];
      TraceAppend(n, front, [x]);
      assert Trace(n, [x]) == At(n, x) by {
        assert [x][1..] == [];
      }
      if x != b {
        TraceAppend(m, Erase(front, b), [x]);
        assert Trace(m, [x]) == At(m, x) by {
          assert [x][1..] == [];
        }
      } else {
        assert Erase(p, b) == Erase(front, b);
      }
    }
  }

  lemma CollapseTraces(g: Cfg, b: int, t: seq<NodeId>)
    requires Collapsible(g, b)
    ensures GraphTrace(g, t) <==> GraphTrace(Collapse(g, b), t)
  {
    var h := Collapse(g, b);
    hide Collapsible, Collapse;
    CollapseBypasses(g, b);
    CollapseBlocks(g, b);
    if GraphTrace(g, t) {
      var p :| WalkFromTo(g.Arcs(), p, ENTRY, EXIT) && Trace(NetOf(g), p) == t;
      EraseEnds(p, b);
      EraseWalk(g.Arcs(), h.Arcs(), b, p);
      TraceErase(NetOf(g), NetOf(h), p, b);
      assert WalkFromTo(h.Arcs(), Erase(p, b), ENTRY, EXIT);
    }
    if GraphTrace(h, t) {
      var q :| WalkFromTo(h.Arcs(), q, ENTRY, EXIT) && Trace(NetOf(h), q) == t;
      var p := ExpandWalk(g.Arcs(), h.Arcs(), b, q);
      TraceErase(NetOf(g), NetOf(h), p, b);
    }
  }

  lemma CollapseBlocks(g: Cfg, b: int)
    requires Collapsible(g, b)
    ensures b != ENTRY && b != EXIT
    ensures At(NetOf(g), b) == [] && forall x :: x != b ==> At(NetOf(g), x) == At(NetOf(Collapse(g, b)), x)
  {
  }

  lemma CollapseWellFormed(g: Cfg, b: int)
    requires Collapsible(g, b) && WellFormed(g)
    ensures WellFormed(Collapse(g, b))
  {
    var h := Collapse(g, b);
    forall e | e in h.edges
      ensures e.source in h.blocks && e.target in h.blocks && e.target != ENTRY && e.source != EXIT
    {
      CollapsedEdge(g, b, e);
    }
  }

  /** An edge that stays is an old edge, or an old edge into the block moved on
      to where the block led. */
  lemma CollapsedEdge(g: Cfg, b: int, e: Edge)
    requires Collapsible(g, b) && e in Collapse(g, b).edges
    ensures e.source != b && e.target != b
    ensures exists d :: d in g.edges && d.source == e.source
    ensures exists d :: d in g.edges && d.target == e.target
  {
    var out := Successors(g.edges, b);
    var moved := Retarget(g.edges, b, out[0].target);
    assert out[0] in out && e in WithoutSource(moved, b);
    var i :| 0 <= i < |moved| && moved[i] == e;
    assert g.edges[i] in g.edges && out[0] in g.edges;
  }

  // ------------------------------------------------------------------
  // What pruning keeps
  // ------------------------------------------------------------------

  lemma PruneStepsFront(gs: seq<Cfg>)
    requires PruneSteps(gs) && |gs| > 1
    ensures PruneSteps(gs[..|gs| - 1]) && CollapseStep(gs[|gs| - 2], gs[|gs| - 1])
    ensures Last(gs[..|gs| - 1]) == gs[|gs| - 2] && gs[..|gs| - 1][0] == gs[0]
  {
    var front := gs[..|gs| - 1];
    assert forall i :: 0 <= i < |front| ==> front[i] == gs[i];
  }

  lemma PrunedSelf(g: Cfg)
    ensures PrunedTo(g, g)
  {
    assert PruneSteps([g]) && Last([g]) == g;
  }

  lemma PrunedOnce(g: Cfg, h: Cfg, b: int)
    requires PrunedTo(g, h) && Collapsible(h, b)
    ensures PrunedTo(g, Collapse(h, b))
  {
    hide Collapse, Collapsible;
    var gs :| PruneSteps(gs) && gs[0] == g && Last(gs) == h;
    var hs := gs + [Collapse(h, b)];
    assert CollapseStep(h, Collapse(h, b));
    forall i | 0 < i < |hs|
      ensures CollapseStep(hs[i - 1], hs[i])
    {
    }
    assert PruneSteps(hs) && Last(hs) == Collapse(h, b);
  }

  /** Only statement-free blocks go, the entry and the exit stay, and no block
      changes its statements. */
  lemma {:induction false} PrunedBlocks(gs: seq<Cfg>)
    requires PruneSteps(gs)
    ensures Last(gs).blocks.Keys <= gs[0].blocks.Keys
    ensures forall b :: b in Last(gs).blocks ==> Last(gs).blocks[b] == gs[0].blocks[b]
    ensures forall b :: b in gs[0].blocks && b !in Last(gs).blocks
              ==> gs[0].blocks[b] == [] && b != ENTRY && b != EXIT
    decreases |gs|
  {
    if |gs| > 1 {
      PruneStepsFront(gs);
      PrunedBlocks(gs[..|gs| - 1]);
    }
  }

  lemma {:induction false} PrunedWellFormed(gs: seq<Cfg>)
    requires PruneSteps(gs) && WellFormed(gs[0])
    ensures WellFormed(Last(gs))
    decreases |gs|
  {
    if |gs| > 1 {
      hide WellFormed, Collapse, Collapsible;
      PruneStepsFront(gs);
      PrunedWellFormed(gs[..|gs| - 1]);
      var g := gs[|gs| - 2];
      var b :| Collapsible(g, b) && gs[|gs| - 1] == Collapse(g, b);
      CollapseWellFormed(g, b);
    }
  }

  lemma {:induction false} PrunedTraces(gs: seq<Cfg>, t: seq<NodeId>)
    requires PruneSteps(gs)
    ensures GraphTrace(gs[0], t) <==> GraphTrace(Last(gs), t)
    decreases |gs|
  {
    if |gs| > 1 {
      hide GraphTrace, Collapse, Collapsible;
      PruneStepsFront(gs);
      PrunedTraces(gs[..|gs| - 1], t);
      var g := gs[|gs| - 2];
      var b :| Collapsible(g, b) && gs[|gs| - 1] == Collapse(g, b);
      CollapseTraces(g, b, t);
    }
  }

  lemma {:induction false} PrunedReach(gs: seq<Cfg>, u: int, v: int)
    requires PruneSteps(gs) && u in Last(gs).blocks && v in Last(gs).blocks
    ensures Reaches(gs[0].Arcs(), u, v) <==> Reaches(Last(gs).Arcs(), u, v)
    decreases |gs|
  {
    if |gs| > 1 {
      PruneStepsFront(gs);
      var g := gs[|gs| - 2];
      var b :| Collapsible(g, b) && gs[|gs| - 1] == Collapse(g, b);
      CollapseBypasses(g, b);
      PrunedReach(gs[..|gs| - 1], u, v);
      BypassReach(g.Arcs(), gs[|gs| - 1].Arcs(), b, u, v);
    }
  }

  /** Transfers that do nothing at statement-free blocks. */
  ghost predicate IdleWhenEmpty<F(!new)>(t: Transfer<F>, g: Cfg)
  {
    forall b :: b in g.blocks && g.blocks[b] == [] ==> IdentityAt(t, b)
  }

  /** Pruning leaves the least solution on every surviving block unchanged, at
      its end and at its start, whether facts flow along the edges or against
      them. */
  lemma {:induction false} PrunedFacts<F(!new)>(t: Transfer<F>, gs: seq<Cfg>, x: int, f: F)
    requires PruneSteps(gs) && IdleWhenEmpty(t, gs[0]) && x in Last(gs).blocks
    ensures PathFact(t, gs[0].Arcs(), x, f) <==> PathFact(t, Last(gs).Arcs(), x, f)
    ensures PathFact(t, Reverse(gs[0].Arcs()), x, f) <==> PathFact(t, Reverse(Last(gs).Arcs()), x, f)
    ensures EnteringFact(t, gs[0].Arcs(), x, f) <==> EnteringFact(t, Last(gs).Arcs(), x, f)
    ensures EnteringFact(t, Reverse(gs[0].Arcs()), x, f) <==> EnteringFact(t, Reverse(Last(gs).Arcs()), x, f)
    decreases |gs|
  {
    if |gs| > 1 {
      hide PathFact, EnteringFact, IdentityAt, Bypass, Reverse;
      PruneStepsFront(gs);
      var g := gs[|gs| - 2];
      var b :| Collapsible(g, b) && gs[|gs| - 1] == Collapse(g, b);
      CollapseBypasses(g, b);
      PrunedBlocks(gs[..|gs| - 1]);
      PrunedFacts(t, gs[..|gs| - 1], x, f);
      BypassFacts(t, g.Arcs(), gs[|gs| - 1].Arcs(), b, x, f);
      BypassEntering(t, g.Arcs(), gs[|gs| - 1].Arcs(), b, x, f);
      BypassReversed(g.Arcs(), gs[|gs| - 1].Arcs(), b);
      BypassFacts(t, Reverse(g.Arcs()), Reverse(gs[|gs| - 1].Arcs()), b, x, f);
      BypassEntering(t, Reverse(g.Arcs()), Reverse(gs[|gs| - 1].Arcs()), b, x, f);
    }
  }

  /** The main result for the graph that `build` returns: whatever the pruning
      pass removed, the paths from entry to exit are the complete runs. */
  lemma PrunedGraphExact(body: seq<Stmt>, h: Cfg, t: seq<NodeId>)
    requires RegularAll(body, AtTop) && PrunedTo(RawGraph(body), h)
    ensures CompleteRun(AsBuilt, body, t) <==> GraphTrace(h, t)
    ensures Faithful(body) ==> (CompleteRun(InC, body, t) <==> GraphTrace(h, t))
  {
    hide RawGraph, GraphTrace, CompleteRun;
    var gs :| PruneSteps(gs) && gs[0] == RawGraph(body) && Last(gs) == h;
    PrunedTraces(gs, t);
    RawGraphAsBuilt(body, t);
    if Faithful(body) {
      RawGraphExact(body, t);
    }
  }

  /** The check on the tree is as exact for the graph that `build` returns. */
  lemma PrunedFaithfulIsExact(body: seq<Stmt>, h: Cfg)
    requires RegularAll(body, AtTop) && NoRepeats(NodesOf(body)) && PrunedTo(RawGraph(body), h)
    ensures Faithful(body) <==> forall t :: CompleteRun(InC, body, t) <==> GraphTrace(h, t)
  {
    hide RawGraph, GraphTrace, RegularAll, CleanAll, CompleteRun;
    var gs :| PruneSteps(gs) && gs[0] == RawGraph(body) && Last(gs) == h;
    forall t
      ensures GraphTrace(RawGraph(body), t) <==> GraphTrace(h, t)
    {
      PrunedTraces(gs, t);
    }
    FaithfulIsExact(body);
  }

  /** Arcs between blocks that hold statements, or into the exit, are not touched. */
  lemma {:induction false} PrunedKeepsArcs(gs: seq<Cfg>, x: int, y: int)
    requires PruneSteps(gs) && x in gs[0].blocks && gs[0].blocks[x] != []
    requires forall z :: (x, z) in gs[0].Arcs() ==> z == EXIT || (z in gs[0].blocks && gs[0].blocks[z] != [])
    ensures (x, y) in Last(gs).Arcs() <==> (x, y) in gs[0].Arcs()
    decreases |gs|
  {
    if |gs| > 1 {
      PruneStepsFront(gs);
      var front := gs[..|gs| - 1];
      forall z
        ensures (x, z) in Last(front).Arcs() <==> (x, z) in gs[0].Arcs()
      {
        PrunedKeepsArcs(front, x, z);
      }
      PrunedBlocks(front);
      var g := Last(front);
      var b :| Collapsible(g, b) && Last(gs) == Collapse(g, b);
      CollapseBypasses(g, b);
    }
  }
}
