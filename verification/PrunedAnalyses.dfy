/** Pruning the graph disturbs none of the three analyses. */
module PrunedAnalyses {
  import opened Collections
  import opened Paths
  import opened CfgSpec
  import opened CfgNodes
  import opened CfgPrune
  import opened FlowTheory
  import opened FlowModel
  import ReachingDefs
  import Liveness
  import Taint
  import TaintChains

  // ------------------------------------------------------------------
  // Pruning and the analyses
  // ------------------------------------------------------------------

  lemma {:induction false} FoldSame<F(!new)>(t: Transfer<F>, u: Transfer<F>, w: seq<int>)
    requires forall b, s :: t(b, s) == u(b, s)
    ensures Fold(t, w) == Fold(u, w)
  {
    if w != [] {
      FoldSame(t, u, w[..|w| - 1]);
    }
  }

  lemma PathFactSame<F(!new)>(t: Transfer<F>, u: Transfer<F>, arcs: set<(int, int)>, b: int, f: F)
    requires forall c, s :: t(c, s) == u(c, s)
    ensures PathFact(t, arcs, b, f) <==> PathFact(u, arcs, b, f)
    ensures EnteringFact(t, arcs, b, f) <==> EnteringFact(u, arcs, b, f)
  {
    forall w
      ensures Fold(t, w) == Fold(u, w)
    {
      FoldSame(t, u, w);
    }
  }

  /** Blocks without statements have no events and no declarations. */
  ghost predicate EmptyBlocksIdle(p: Program)
  {
    forall b :: b in p.cfg.blocks && p.cfg.blocks[b] == [] ==>
      p.EventsAt(b) == [] && forall d :: d in p.decls ==> d.block != Some(b)
  }

  lemma LiveArcsAreAll(p: Program)
    requires WellFormed(p.cfg)
    ensures p.Arcs() == p.cfg.Arcs()
  {
    forall a | a in p.cfg.Arcs()
      ensures a.0 in p.cfg.blocks && a.1 in p.cfg.blocks
    {
      ArcOfEdge(p.cfg.edges, a.0, a.1);
    }
  }

  /** What pruning needs to know about a pruned program. */
  lemma PrunedProgram(p: Program, gs: seq<Cfg>)
    requires PruneSteps(gs) && gs[0] == p.cfg && WellFormed(p.cfg) && EmptyBlocksIdle(p)
    ensures p.Arcs() == gs[0].Arcs() && p.(cfg := Paths.Last(gs)).Arcs() == Paths.Last(gs).Arcs()
    ensures forall b :: p.(cfg := Paths.Last(gs)).EventsAt(b) == p.EventsAt(b)
    ensures forall b, d :: b in p.cfg.blocks && b !in Paths.Last(gs).blocks && d in p.decls ==> d.block != Some(b)
    ensures Paths.Last(gs).blocks.Keys <= p.cfg.blocks.Keys
  {
    LiveArcsAreAll(p);
    PrunedBlocks(gs);
    PrunedWellFormed(gs);
    LiveArcsAreAll(p.(cfg := Paths.Last(gs)));
  }

  /** Reaching definitions on a surviving block, OUT and IN, are those of the
      unpruned graph. */
  lemma PruningKeepsReachingDefinitions(p: Program, gs: seq<Cfg>, b: int, d: ReachingDefs.Definition)
    requires PruneSteps(gs) && gs[0] == p.cfg && WellFormed(p.cfg) && EmptyBlocksIdle(p)
    requires b in Paths.Last(gs).blocks
    ensures ReachingDefs.DefReaches(p, d, b) <==> ReachingDefs.DefReaches(p.(cfg := Paths.Last(gs)), d, b)
    ensures ReachingDefs.DefEnters(p, d, b) <==> ReachingDefs.DefEnters(p.(cfg := Paths.Last(gs)), d, b)
  {
    var q := p.(cfg := Paths.Last(gs));
    var t, u := ReachingDefs.Transfers(p), ReachingDefs.Transfers(q);
    PrunedProgram(p, gs);
    forall c
      ensures ReachingDefs.Gen(p, c) == ReachingDefs.Gen(q, c)
    {
      assert ReachingDefs.DeclDefs(p, c) == ReachingDefs.DeclDefs(q, c);
    }
    forall c, s
      ensures t(c, s) == u(c, s)
    {
    }
    forall c | c in p.cfg.blocks && p.cfg.blocks[c] == []
      ensures IdentityAt(t, c)
    {
      assert ReachingDefs.DeclDefs(p, c) == {};
    }
    hide ReachingDefs.Transfers, ReachingDefs.DefReaches, ReachingDefs.DefEnters, PathFact, EnteringFact;
    PrunedFacts(t, gs, b, d);
    PathFactSame(t, u, q.Arcs(), b, d);
    ReachingDefs.PathFactIsReach(p, b, d);
    ReachingDefs.PathFactIsReach(q, b, d);
    ReachingDefs.EnteringIsReach(p, b, d);
    ReachingDefs.EnteringIsReach(q, b, d);
  }

  /** So is liveness, at the start of a block and at its end ... */
  lemma PruningKeepsLiveness(p: Program, gs: seq<Cfg>, b: int, x: string)
    requires PruneSteps(gs) && gs[0] == p.cfg && WellFormed(p.cfg) && EmptyBlocksIdle(p)
    requires b in Paths.Last(gs).blocks
    ensures Liveness.LiveAtStart(p, b, x) <==> Liveness.LiveAtStart(p.(cfg := Paths.Last(gs)), b, x)
    ensures Liveness.LiveAtEnd(p, b, x) <==> Liveness.LiveAtEnd(p.(cfg := Paths.Last(gs)), b, x)
  {
    var q := p.(cfg := Paths.Last(gs));
    var t, u := Liveness.Transfers(p), Liveness.Transfers(q);
    PrunedProgram(p, gs);
    forall c, s
      ensures t(c, s) == u(c, s)
    {
    }
    forall c | c in p.cfg.blocks && p.cfg.blocks[c] == []
      ensures IdentityAt(t, c)
    {
    }
    hide Liveness.Transfers, Liveness.LiveAtStart, Liveness.LiveAtEnd, PathFact, EnteringFact;
    PrunedFacts(t, gs, b, x);
    PathFactSame(t, u, Reverse(q.Arcs()), b, x);
    Liveness.PathFactIsLive(p, b, x);
    Liveness.PathFactIsLive(q, b, x);
    Liveness.EnteringIsLive(p, b, x);
    Liveness.EnteringIsLive(q, b, x);
  }

  lemma {:induction false} ScanSame(p: Taint.TaintProgram, q: Taint.TaintProgram, ops: seq<TaintChains.Op>, s: set<string>)
    requires p.sources == q.sources
    ensures Taint.Scan(p, ops, s) == Taint.Scan(q, ops, s)
  {
    if ops != [] {
      ScanSame(p, q, ops[..|ops| - 1], s);
    }
  }

  /** ... and taint. */
  lemma PruningKeepsTaint(p: Taint.TaintProgram, gs: seq<Cfg>, b: int, x: string)
    requires PruneSteps(gs) && gs[0] == p.cfg && WellFormed(p.cfg)
    requires forall c :: c in p.cfg.blocks && p.cfg.blocks[c] == [] ==> p.OpsAt(c) == []
    requires b in Paths.Last(gs).blocks
    ensures PathFact(Taint.Transfers(p), p.Flow().Arcs(), b, x)
            <==> PathFact(Taint.Transfers(p.(cfg := Paths.Last(gs))), p.(cfg := Paths.Last(gs)).Flow().Arcs(), b, x)
    ensures EnteringFact(Taint.Transfers(p), p.Flow().Arcs(), b, x)
            <==> EnteringFact(Taint.Transfers(p.(cfg := Paths.Last(gs))), p.(cfg := Paths.Last(gs)).Flow().Arcs(), b, x)
  {
    var q := p.(cfg := Paths.Last(gs));
    var t, u := Taint.Transfers(p), Taint.Transfers(q);
    PrunedProgram(p.Flow(), gs);
    PrunedBlocks(gs);
    forall c, s
      ensures t(c, s) == u(c, s)
    {
      assert p.OpsAt(c) == q.OpsAt(c);
      ScanSame(p, q, p.OpsAt(c), s);
    }
    forall c | c in p.cfg.blocks && p.cfg.blocks[c] == []
      ensures IdentityAt(t, c)
    {
    }
    hide Taint.Transfers, PathFact, EnteringFact;
    assert q.Flow() == p.Flow().(cfg := Paths.Last(gs));
    PrunedFacts(t, gs, b, x);
    PathFactSame(t, u, q.Flow().Arcs(), b, x);
  }
}
