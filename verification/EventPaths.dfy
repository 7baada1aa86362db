/** Paths through a graph and what they meet, said of the edges and of the
    recorded events themselves. */
module EventPaths {
  import opened Paths
  import opened CfgSpec
  import opened FlowModel

  ghost predicate Joined(g: Cfg, x: int, y: int)
  {
    exists e :: e in g.edges && e.source == x && e.target == y
  }

  /** Live blocks, each joined to the next by an edge. */
  ghost predicate Route(g: Cfg, w: seq<int>)
  {
    && |w| > 0
    && (forall k :: 0 <= k < |w| ==> w[k] in g.blocks)
    && forall k :: 0 < k < |w| ==> Joined(g, w[k - 1], w[k])
  }

  lemma RouteIsWalk(p: Program, w: seq<int>)
    requires |w| > 0
    ensures Route(p.cfg, w) <==> IsWalk(p.Arcs(), w) && w[|w| - 1] in p.cfg.blocks
  {
    forall k | 0 < k < |w|
      ensures Joined(p.cfg, w[k - 1], w[k]) <==> (w[k - 1], w[k]) in p.cfg.Arcs()
    {
      ArcOfEdge(p.cfg.edges, w[k - 1], w[k]);
    }
    if Route(p.cfg, w) {
      forall k | 0 < k < |w|
        ensures (w[k - 1], w[k]) in p.Arcs()
      {
        assert Joined(p.cfg, w[k - 1], w[k]);
      }
    }
    if IsWalk(p.Arcs(), w) && w[|w| - 1] in p.cfg.blocks {
      forall k | 0 <= k < |w|
        ensures w[k] in p.cfg.blocks && (k > 0 ==> Joined(p.cfg, w[k - 1], w[k]))
      {
        assert k > 0 ==> (w[k - 1], w[k]) in p.Arcs() && (w[k - 1], w[k]) in p.cfg.Arcs();
        assert k + 1 < |w| ==> (w[k], w[k + 1]) in p.Arcs() && (w[k], w[k + 1]).0 in p.cfg.blocks;
      }
    }
  }

  // ----- Events -----

  ghost predicate Names(p: Program, b: int, i: int, x: string)
  {
    b in p.events && 0 <= i < |p.events[b]| && p.events[b][i].name == x
  }

  ghost predicate WritesAt(p: Program, b: int, i: int, x: string)
  {
    Names(p, b, i, x) && p.events[b][i].isWrite
  }

  /** A read, or a write that reads as well. */
  ghost predicate ReadsAt(p: Program, b: int, i: int, x: string)
  {
    Names(p, b, i, x) && (!p.events[b][i].isWrite || p.events[b][i].isReadToo)
  }

  /** The block declares the variable without a value. */
  ghost predicate DeclaresBare(p: Program, b: int, x: string)
  {
    exists k :: 0 <= k < |p.decls| && p.decls[k].name == x && p.decls[k].block.Some? && p.decls[k].block.value == b
  }

  lemma WrittenSomewhere(p: Program, b: int, x: string)
    requires b in p.cfg.blocks
    ensures WritesVar(p.EventsAt(b), x) <==> exists i :: WritesAt(p, b, i, x)
  {
    if WritesVar(p.EventsAt(b), x) {
      var i :| 0 <= i < |p.EventsAt(b)| && p.EventsAt(b)[i].isWrite && p.EventsAt(b)[i].name == x;
      assert WritesAt(p, b, i, x);
    }
    if i :| WritesAt(p, b, i, x) {
      assert p.EventsAt(b)[i].isWrite;
    }
  }
}
