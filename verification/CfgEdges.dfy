/** What pruning makes of the edges: a block that stays keeps its outgoing
    edges, in order and with their kinds, and the blocks that go are those whose
    only edge was a fallthrough. */
module CfgEdges {
  import opened Ast
  import opened Paths
  import opened CfgSpec
  import opened CfgPrune

  /** The kinds of the edges out of a block, in the order of the edge list. */
  function OutKinds(edges: seq<Edge>, b: int): seq<EdgeKind>
  {
    if edges == [] then []
    else (if edges[0].source == b then [edges[0].kind] else []) + OutKinds(edges[1..], b)
  }

  lemma {:induction false} KindsOfSuccessors(edges: seq<Edge>, b: int)
    ensures var out := Successors(edges, b);
      |out| == |OutKinds(edges, b)| && forall i :: 0 <= i < |out| ==> out[i].kind == OutKinds(edges, b)[i]
  {
    if edges != [] {
      KindsOfSuccessors(edges[1..], b);
    }
  }

  lemma {:induction false} KindsWithoutSource(edges: seq<Edge>, b: int, x: int)
    requires x != b
    ensures OutKinds(WithoutSource(edges, b), x) == OutKinds(edges, x)
  {
    if edges != [] {
      KindsWithoutSource(edges[1..], b, x);
      var rest := WithoutSource(edges[1..], b);
      if edges[0].source != b {
        assert ([edges[0]] + rest)[1..] == rest;
      } else {
        assert [] + rest == rest;
      }
    }
  }

  lemma {:induction false} KindsRetargeted(edges: seq<Edge>, b: int, t: int, x: int)
    ensures OutKinds(Retarget(edges, b, t), x) == OutKinds(edges, x)
  {
    if edges != [] {
      KindsRetargeted(edges[1..], b, t, x);
      assert Retarget(edges, b, t)[1..] == Retarget(edges[1..], b, t);
    }
  }

  lemma KindsCollapsed(g: Cfg, b: int, x: int)
    requires Collapsible(g, b) && x != b
    ensures OutKinds(Collapse(g, b).edges, x) == OutKinds(g.edges, x)
  {
    var t := Successors(g.edges, b)[0].target;
    KindsRetargeted(g.edges, b, t, x);
    KindsWithoutSource(Retarget(g.edges, b, t), b, x);
  }

  lemma CollapsibleKinds(g: Cfg, b: int)
    requires Collapsible(g, b)
    ensures OutKinds(g.edges, b) == [Fallthrough] && (b, b) !in g.Arcs()
  {
    KindsOfSuccessors(g.edges, b);
    CollapseBypasses(g, b);
  }

  /** An empty block whose only edge falls through to another block can go. */
  lemma KindsCollapsible(g: Cfg, b: int)
    requires b in g.blocks && b != ENTRY && b != EXIT && g.blocks[b] == []
    requires OutKinds(g.edges, b) == [Fallthrough] && (b, b) !in g.Arcs()
    ensures Collapsible(g, b)
  {
    KindsOfSuccessors(g.edges, b);
    var out := Successors(g.edges, b);
    assert out[0] in out;
    ArcOfEdge(g.edges, b, out[0].target);
  }

  /** No block is left that holds nothing and only falls through to another. */
  ghost predicate FullyPruned(g: Cfg)
  {
    forall b :: b in g.blocks && b != ENTRY && b != EXIT && g.blocks[b] == [] && OutKinds(g.edges, b) == [Fallthrough]
      ==> (b, b) in g.Arcs()
  }

  lemma NoneCollapsible(g: Cfg)
    requires forall b :: b in g.blocks ==> !Collapsible(g, b)
    ensures FullyPruned(g)
  {
    hide Collapsible;
    forall b | b in g.blocks && b != ENTRY && b != EXIT && g.blocks[b] == [] && OutKinds(g.edges, b) == [Fallthrough]
      ensures (b, b) in g.Arcs()
    {
      if (b, b) !in g.Arcs() {
        KindsCollapsible(g, b);
      }
    }
  }

  lemma CollapseStepKinds(g: Cfg, h: Cfg, b: int)
    requires CollapseStep(g, h) && b in g.blocks
    ensures b in h.blocks ==> OutKinds(h.edges, b) == OutKinds(g.edges, b)
    ensures b !in h.blocks ==> OutKinds(g.edges, b) == [Fallthrough]
    ensures (b, b) in g.Arcs() ==> b in h.blocks && (b, b) in h.Arcs()
  {
    hide OutKinds;
    var c :| Collapsible(g, c) && h == Collapse(g, c);
    CollapsibleKinds(g, c);
    CollapseBypasses(g, c);
    if b != c {
      KindsCollapsed(g, c, b);
    }
  }

  /** The blocks that stay keep the kinds of their edges; the blocks that go had
      one edge alone, a fallthrough to another block. */
  lemma {:induction false} PrunedKinds(gs: seq<Cfg>, b: int)
    requires PruneSteps(gs) && b in gs[0].blocks
    ensures b in Last(gs).blocks ==> OutKinds(Last(gs).edges, b) == OutKinds(gs[0].edges, b)
    ensures b !in Last(gs).blocks ==> OutKinds(gs[0].edges, b) == [Fallthrough]
    ensures (b, b) in gs[0].Arcs() ==> b in Last(gs).blocks && (b, b) in Last(gs).Arcs()
    decreases |gs|
  {
    if |gs| > 1 {
      hide CollapseStep, OutKinds, ArcsOf;
      PruneStepsFront(gs);
      var front := gs[..|gs| - 1];
      PrunedKinds(front, b);
      StepBlocks(Last(front), Last(gs), b);
      if b in Last(front).blocks {
        CollapseStepKinds(Last(front), Last(gs), b);
      }
    }
  }

  lemma StepBlocks(g: Cfg, h: Cfg, b: int)
    requires CollapseStep(g, h)
    ensures b in h.blocks ==> b in g.blocks
  {
  }

  /** Pruning takes away exactly blocks that held nothing and only fell through
      to another block, and leaves none of these. */
  lemma PruningIsExact(g: Cfg, h: Cfg, b: int)
    requires PrunedTo(g, h) && b in g.blocks
    ensures b in h.blocks ==> h.blocks[b] == g.blocks[b] && OutKinds(h.edges, b) == OutKinds(g.edges, b)
    ensures b !in h.blocks ==>
      b != ENTRY && b != EXIT && g.blocks[b] == [] && OutKinds(g.edges, b) == [Fallthrough] && (b, b) !in g.Arcs()
  {
    hide OutKinds;
    var gs :| PruneSteps(gs) && gs[0] == g && Last(gs) == h;
    PrunedBlocks(gs);
    PrunedKinds(gs, b);
  }
}
