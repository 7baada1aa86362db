/** The builder wires what it builds. A graph that contains a fragment, and
    nothing else in the fragment's blocks, is wired as the path theorem asks. */
module CfgWiring {
  import opened Collections
  import opened Ast
  import opened Runs
  import opened SwitchGroups
  import opened CfgSpec
  import opened CfgWellFormed
  import opened CfgPaths

  /** In the blocks between `p` and `next` the graph has exactly these arcs and
      placements; only block `next.block` may have more. */
  ghost predicate Hosts(n: Net, arcs: set<(int, int)>, places: seq<Place>, p: Pos, next: Pos)
  {
    && arcs <= n.arcs
    && (forall x, y :: (x, y) in n.arcs && InRegion(x, p, next) && x != next.block ==> (x, y) in arcs)
    && (forall b :: InRegion(b, p, next) ==> HoldsFrom(n, b, StartOffset(b, p), PlacedAt(places, b), b == next.block))
  }

  /** From offset `k` on, block `b` holds `ids`, and more only if it is `open`. */
  ghost predicate HoldsFrom(n: Net, b: int, k: nat, ids: seq<NodeId>, open: bool)
  {
    && k + |ids| <= |At(n, b)|
    && At(n, b)[k..k + |ids|] == ids
    && (!open ==> |At(n, b)| == k + |ids|)
  }

  ghost predicate HostsFrag(n: Net, f: Frag, p: Pos)
  {
    Hosts(n, ArcsOf(f.edges), f.places, p, f.next)
  }

  lemma ArcsAppend(a: seq<Edge>, b: seq<Edge>)
    ensures ArcsOf(a + b) == ArcsOf(a) + ArcsOf(b)
  {
    forall e | e in a + b
      ensures (e.source, e.target) in ArcsOf(a) + ArcsOf(b)
    {
      if e in a {} else { assert e in b; }
    }
  }

  /** Arcs out of a confined fragment start in its region, never at its end. */
  lemma ConfinedArcs(f: Frag, p: Pos, loops: seq<LoopFrame>, x: int, y: int)
    requires Confined(f, p, loops) && (x, y) in ArcsOf(f.edges)
    ensures InRegion(x, p, f.next) && x != f.next.block
  {
  }

  /** A graph that hosts two fragments in a row hosts each of them. */
  lemma HostsSplit(n: Net, f: Frag, g: Frag, p: Pos, loops: seq<LoopFrame>)
    requires Placed(p) && Confined(f, p, loops) && Confined(g, f.next, loops)
    requires HostsFrag(n, f.Then(g), p)
    ensures HostsFrag(n, f, p) && HostsFrag(n, g, f.next)
  {
    hide HoldsFrom, PlacedAt, ArcsOf;
    ArcsAppend(f.edges, g.edges);
    HostsSplitArcs(n, f, g, p, loops);
    forall b | InRegion(b, p, f.next)
      ensures HoldsFrom(n, b, StartOffset(b, p), PlacedAt(f.places, b), b == f.next.block)
    {
      PlacedAtAppend(f.places, g.places, b);
      if b != f.next.block {
        PlacedAtNowhere(g.places, b);
      }
      HoldsPrefix(n, b, StartOffset(b, p), PlacedAt(f.places, b), PlacedAt(g.places, b), b == g.next.block,
                  b == f.next.block);
    }
    forall b | InRegion(b, f.next, g.next)
      ensures HoldsFrom(n, b, StartOffset(b, f.next), PlacedAt(g.places, b), b == g.next.block)
    {
      PlacedAtAppend(f.places, g.places, b);
      if b != f.next.block {
        PlacedAtNowhere(f.places, b);
      }
      HoldsSuffix(n, b, StartOffset(b, p), PlacedAt(f.places, b), PlacedAt(g.places, b), b == g.next.block);
    }
  }

  lemma HoldsPrefix(n: Net, b: int, k: nat, ids: seq<NodeId>, more: seq<NodeId>, open: bool, left: bool)
    requires HoldsFrom(n, b, k, ids + more, open)
    requires open || more != [] ==> left
    ensures HoldsFrom(n, b, k, ids, left)
  {
    assert At(n, b)[k..k + |ids|] == At(n, b)[k..k + |ids + more|][..|ids|] == (ids + more)[..|ids|];
  }

  lemma HoldsSuffix(n: Net, b: int, k: nat, ids: seq<NodeId>, more: seq<NodeId>, open: bool)
    requires HoldsFrom(n, b, k, ids + more, open)
    ensures HoldsFrom(n, b, k + |ids|, more, open)
  {
    assert At(n, b)[k + |ids|..k + |ids| + |more|] == At(n, b)[k..k + |ids + more|][|ids|..] == (ids + more)[|ids|..];
  }

  lemma HostsSplitArcs(n: Net, f: Frag, g: Frag, p: Pos, loops: seq<LoopFrame>)
    requires Placed(p) && Confined(f, p, loops) && Confined(g, f.next, loops)
    requires HostsFrag(n, f.Then(g), p)
    requires ArcsOf(f.edges + g.edges) == ArcsOf(f.edges) + ArcsOf(g.edges)
    ensures forall x, y :: (x, y) in n.arcs && InRegion(x, p, f.next) && x != f.next.block
              ==> (x, y) in ArcsOf(f.edges)
    ensures forall x, y :: (x, y) in n.arcs && InRegion(x, f.next, g.next) && x != g.next.block
              ==> (x, y) in ArcsOf(g.edges)
  {
    forall x, y | (x, y) in n.arcs && InRegion(x, p, f.next) && x != f.next.block
      ensures (x, y) in ArcsOf(f.edges)
    {
      if (x, y) in ArcsOf(g.edges) {
        ConfinedArcs(g, f.next, loops, x, y);
      }
    }
    forall x, y | (x, y) in n.arcs && InRegion(x, f.next, g.next) && x != g.next.block
      ensures (x, y) in ArcsOf(g.edges)
    {
      if (x, y) in ArcsOf(f.edges) {
        ConfinedArcs(f, p, loops, x, y);
      }
    }
  }

  /** The blocks after `counter` up to `last` hold the inner sequence `f`, whose
      end leads to `exits` and nowhere else. */
  ghost predicate Encloses(n: Net, f: Frag, counter: nat, exits: set<int>)
  {
    && ArcsOf(f.edges) <= n.arcs
    && (forall x, y :: (x, y) in n.arcs && counter < x <= f.next.counter
          ==> if x == f.next.block then y in exits else (x, y) in ArcsOf(f.edges))
    && (forall y :: y in exits ==> (f.next.block, y) in n.arcs)
    && (forall b :: counter < b <= f.next.counter ==> HoldsFrom(n, b, 0, PlacedAt(f.places, b), false))
  }

  lemma EnclosedIsHosted(n: Net, f: Frag, counter: nat, exits: set<int>, loops: seq<LoopFrame>)
    requires Confined(f, Fresh(counter), loops) && Encloses(n, f, counter, exits)
    ensures HostsFrag(n, f, Fresh(counter)) && Leads(n, f.next, exits)
  {
    forall y
      ensures (f.next.block, y) in n.arcs <==> y in exits
    {
    }
  }

  /** A branch, loop body or row of groups inside a larger fragment. */
  lemma InnerEnclosed(n: Net, arcs: set<(int, int)>, places: seq<Place>, p: Pos, next: Pos,
                      f: Frag, counter: nat, exits: set<int>)
    requires Placed(p) && Hosts(n, arcs, places, p, next)
    requires p.counter <= counter && f.next.counter <= next.counter && !(counter < next.block <= f.next.counter)
    requires ArcsOf(f.edges) <= arcs
    requires forall x, y :: (x, y) in arcs && counter < x <= f.next.counter
               ==> if x == f.next.block then y in exits else (x, y) in ArcsOf(f.edges)
    requires forall y :: y in exits ==> (f.next.block, y) in arcs
    requires forall b :: counter < b <= f.next.counter ==> PlacedAt(places, b) == PlacedAt(f.places, b)
    ensures Encloses(n, f, counter, exits)
  {
    forall b | counter < b <= f.next.counter
      ensures HoldsFrom(n, b, 0, PlacedAt(f.places, b), false)
    {
      assert InRegion(b, p, next);
    }
  }

  // ------------------------------------------------------------------
  // Hosted lists are wired
  // ------------------------------------------------------------------

  lemma {:induction false} WalkWired(n: Net, ss: seq<Stmt>, c: Context, p: Pos, loops: seq<LoopFrame>)
    requires Placed(p) && RegularAll(ss, c) && (c.AtTop? || loops != [])
    requires HostsFrag(n, Walk(ss, p, loops), p)
    ensures Wired(n, ss, p, loops)
    decreases SizeAll(ss), 1
  {
    if ss != [] {
      hide Step, HostsFrag, Confined, WiredStep;
      var f := Step(ss[0], p, loops);
      StepConfined(ss[0], p, loops);
      WalkNext(ss, p, loops);
      WalkConfined(ss[1..], f.next, loops);
      HostsSplit(n, f, Walk(ss[1..], f.next, loops), p, loops);
      StepWired(n, ss[0], c, p, loops);
      WalkWired(n, ss[1..], c, f.next, loops);
    }
  }

  lemma {:induction false} StepWired(n: Net, s: Stmt, c: Context, p: Pos, loops: seq<LoopFrame>)
    requires Placed(p) && Regular(s, c) && (c.AtTop? || loops != [])
    requires HostsFrag(n, Step(s, p, loops), p)
    ensures WiredStep(n, s, p, loops)
    decreases Size(s), 0
  {
    if Hollow(s) {
      HollowWired(n, s, p, loops, Step(s, p, loops));
      return;
    }
    match s
    case If(_, _, _) => IfWired(n, s, c, p, loops, IfStep(s, p, loops));
    case Loop(_, _, _) => LoopWired(n, s, c, p, loops, LoopStep(s, p, loops));
    case Compound(_, _) => CompoundWired(n, s, c, p, loops, CompoundStep(s, p, loops));
    case Switch(_, _) => SwitchWired(n, s, p, loops, SwitchStep(s, p, loops));
    case Label(_, _) => LabelWired(n, s, p, loops);
    case _ => SimpleWired(n, s, c, p, loops);
  }

  lemma HollowWired(n: Net, s: Stmt, p: Pos, loops: seq<LoopFrame>, f: Frag)
    requires Placed(p) && Hollow(s) && f == Step(s, p, loops) && HostsFrag(n, f, p)
    ensures WiredStep(n, s, p, loops)
  {
    hide ArcsOf;
    if s.Loop? {
      var header := p.counter + 1;
      var a, b := Edge(p.block, header, Fallthrough), Edge(header, p.counter + 2, FalseBranch);
      HollowLoop(s, p, loops);
      assert f.edges == [a] + [b] && f.places == [Place(header, s.id)];
      ArcsAppend([a], [b]);
      ArcsOfOne(a);
      ArcsOfOne(b);
      PlacedAtNowhere(f.places, p.block);
      assert PlacedAt(f.places, header) == [s.id];
      assert InRegion(p.block, p, f.next) && InRegion(header, p, f.next);
      assert At(n, header)[0..1] == At(n, header);
    } else {
      var a := Edge(p.block, p.counter + 1, Fallthrough);
      assert f == SwitchShape(s.id, p, Nothing(Pos(p.counter + 1, 0, p.counter + 1)), [a]);
      assert f.edges == [a] && f.places == [Place(p.block, s.id)];
      ArcsOfOne(a);
      HostedBlock(n, ArcsOf(f.edges), f.places, p, f.next, s.id, {p.counter + 1});
    }
  }

  lemma HollowLoop(s: Stmt, p: Pos, loops: seq<LoopFrame>)
    requires s.Loop? && Hollow(s)
    ensures var f := Step(s, p, loops);
      && f.edges == [Edge(p.block, p.counter + 1, Fallthrough), Edge(p.counter + 1, p.counter + 2, FalseBranch)]
      && f.places == [Place(p.counter + 1, s.id)] && f.next == Pos(p.counter + 2, 0, p.counter + 2)
  {
    var header, after := p.counter + 1, p.counter + 2;
    var inner := loops + [LoopFrame(header, after)];
    var f := LoopBodyStep(s.body, header, after, if s.kind.Do? then Fallthrough else TrueBranch, inner);
    assert f == Nothing(Pos(header, 0, after));
    assert Step(s, p, loops) == LoopShape(s.id, p, f);
  }

  lemma LabelWired(n: Net, s: Stmt, p: Pos, loops: seq<LoopFrame>)
    requires Placed(p) && s.Label? && HostsFrag(n, Step(s, p, loops), p)
    ensures WiredStep(n, s, p, loops)
  {
    var f := Step(s, p, loops);
    var b := f.next.block;
    assert InRegion(b, p, f.next) && InRegion(p.block, p, f.next);
    assert PlacedAt(f.places, b) == [s.id];
    if p.offset > 0 {
      assert PlacedAt(f.places, p.block) == [];
      var e := f.edges[0];
      assert ArcsOf(f.edges) == {(e.source, e.target)};
      assert At(n, b)[0] == At(n, b)[0..1][0];
    } else {
      assert At(n, b)[0] == At(n, b)[0..1][0];
    }
  }

  lemma SimpleWired(n: Net, s: Stmt, c: Context, p: Pos, loops: seq<LoopFrame>)
    requires Placed(p) && Regular(s, c) && (c.AtTop? || loops != [])
    requires !s.If? && !s.Loop? && !s.Compound? && !s.Switch? && !s.Label?
    requires HostsFrag(n, Step(s, p, loops), p)
    ensures WiredStep(n, s, p, loops)
  {
    var f := Step(s, p, loops);
    assert InRegion(p.block, p, f.next);
    assert PlacedAt(f.places, p.block) == [s.id];
    assert At(n, p.block)[p.offset] == At(n, p.block)[p.offset..p.offset + 1][0];
    if !s.Plain? && !s.Case? {
      var e := f.edges[0];
      assert ArcsOf(f.edges) == {(e.source, e.target)};
    }
  }

  /** One branch of an `if`, given the part of the graph that holds it. */
  lemma {:induction false} BranchWired(n: Net, b: Option<Stmt>, c: Context, join: int, counter: nat,
                                       loops: seq<LoopFrame>)
    requires RegularAll(Sequence(b), c) && (c.AtTop? || loops != [])
    requires b.Some? ==> Encloses(n, Walk(Sequence(b), Fresh(counter), loops), counter, {join})
    ensures WiredBranch(n, b, join, counter, loops)
    decreases OptionSize(b), 2
  {
    if b.Some? {
      hide Walk, Wired, HostsFrag, Encloses;
      WalkConfined(Sequence(b), Fresh(counter), loops);
      EnclosedIsHosted(n, Walk(Sequence(b), Fresh(counter), loops), counter, {join}, loops);
      WalkWired(n, Sequence(b), c, Fresh(counter), loops);
    }
  }

  lemma BranchArcs(b: Option<Stmt>, branch: int, join: int, counter: nat, kind: EdgeKind, loops: seq<LoopFrame>)
    ensures ArcsOf(BranchStep(b, branch, join, counter, kind, loops).edges)
            == if b.None? then {(branch, join)}
               else var f := Walk(Sequence(b), Fresh(counter), loops);
                    ArcsOf(f.edges) + {(branch, counter + 1), (f.next.block, join)}
    ensures BranchStep(b, branch, join, counter, kind, loops).places
            == if b.None? then [] else Walk(Sequence(b), Fresh(counter), loops).places
    ensures BranchStep(b, branch, join, counter, kind, loops).next.counter
            == if b.None? then counter else Walk(Sequence(b), Fresh(counter), loops).next.counter
  {
    hide Walk;
    if b.None? {
      assert ArcsOf([Edge(branch, join, kind)]) == {(branch, join)} by {
        ArcOfEdge([Edge(branch, join, kind)], branch, join);
      }
    } else {
      var f := Walk(Sequence(b), Fresh(counter), loops);
      var x, y := Edge(branch, counter + 1, kind), Edge(f.next.block, join, Fallthrough);
      ArcsAppend(f.edges, [x, y]);
      ArcOfEdge([x, y], branch, counter + 1);
      ArcOfEdge([x, y], f.next.block, join);
      assert [x, y][0] == x && [x, y][1] == y;
    }
  }

  lemma BranchEnclosed(n: Net, arcs: set<(int, int)>, places: seq<Place>, p: Pos, next: Pos,
                       b: Option<Stmt>, branch: int, join: int, counter: nat, kind: EdgeKind, loops: seq<LoopFrame>,
                       f: Frag)
    requires Placed(p) && Hosts(n, arcs, places, p, next)
    requires f == BranchStep(b, branch, join, counter, kind, loops)
    requires p.counter <= counter && next.block <= counter && f.next.counter <= next.counter && branch <= counter
    requires ArcsOf(f.edges) <= arcs
    requires forall x, y :: (x, y) in arcs && counter < x <= f.next.counter ==> (x, y) in ArcsOf(f.edges)
    requires forall x :: counter < x <= f.next.counter ==> PlacedAt(places, x) == PlacedAt(f.places, x)
    ensures b.Some? ==> Encloses(n, Walk(Sequence(b), Fresh(counter), loops), counter, {join})
  {
    hide Walk, BranchStep, Encloses, Hosts, PlacedAt, ArcsOf;
    if b.Some? {
      var inner := Walk(Sequence(b), Fresh(counter), loops);
      WalkConfined(Sequence(b), Fresh(counter), loops);
      BranchArcs(b, branch, join, counter, kind, loops);
      forall x, y | (x, y) in arcs && counter < x <= inner.next.counter
        ensures if x == inner.next.block then y in {join} else (x, y) in ArcsOf(inner.edges)
      {
        if (x, y) in ArcsOf(inner.edges) {
          ConfinedArcs(inner, Fresh(counter), loops, x, y);
        }
      }
      InnerEnclosed(n, arcs, places, p, next, inner, counter, {join});
    }
  }

  /** The arcs of one branch start in the branching block or in its own blocks. */
  lemma BranchSources(b: Option<Stmt>, branch: int, join: int, counter: nat, kind: EdgeKind, loops: seq<LoopFrame>,
                      f: Frag)
    requires f == BranchStep(b, branch, join, counter, kind, loops) && branch <= counter
    ensures counter <= f.next.counter
    ensures forall x, y :: (x, y) in ArcsOf(f.edges) ==> x == branch || counter < x <= f.next.counter
    ensures forall y :: (branch, y) in ArcsOf(f.edges) <==> y == BranchEntry(b, join, counter)
    ensures forall x :: !(counter < x <= f.next.counter) ==> PlacedAt(f.places, x) == []
  {
    hide Walk, BranchStep, PlacedAt, ArcsOf;
    BranchArcs(b, branch, join, counter, kind, loops);
    BranchAttached(b, branch, join, counter, kind, loops);
    if b.Some? {
      var inner := Walk(Sequence(b), Fresh(counter), loops);
      WalkConfined(Sequence(b), Fresh(counter), loops);
      forall x, y | (x, y) in ArcsOf(inner.edges)
        ensures counter < x <= inner.next.counter
      {
        ConfinedArcs(inner, Fresh(counter), loops, x, y);
      }
    }
    forall x | !(counter < x <= f.next.counter)
      ensures PlacedAt(f.places, x) == []
    {
      PlacedAtNowhere(f.places, x);
    }
  }

  lemma {:induction false} IfWired(n: Net, s: Stmt, c: Context, p: Pos, loops: seq<LoopFrame>, f: Frag)
    requires s.If? && Placed(p) && Regular(s, c) && (c.AtTop? || loops != [])
    requires f == IfStep(s, p, loops) && HostsFrag(n, f, p)
    ensures WiredStep(n, s, p, loops)
    decreases OptionSize(s.thenBranch) + OptionSize(s.elseBranch), 3
  {
    hide Walk, BranchStep, Encloses, Hosts, PlacedAt, ArcsOf, WiredBranch;
    var join := p.counter + 1;
    var t := BranchStep(s.thenBranch, p.block, join, join, TrueBranch, loops);
    var middle := t.next.counter;
    var e := BranchStep(s.elseBranch, p.block, join, middle, FalseBranch, loops);
    BranchSources(s.thenBranch, p.block, join, join, TrueBranch, loops, t);
    BranchSources(s.elseBranch, p.block, join, middle, FalseBranch, loops, e);
    var own := [Place(p.block, s.id)];
    assert [] + t.edges == t.edges;
    ArcsAppend(t.edges, e.edges);
    assert f.edges == t.edges + e.edges && f.places == own + t.places + e.places;
    IfPlaced(own, t.places, e.places, p.block, s.id);
    BranchEnclosed(n, ArcsOf(f.edges), f.places, p, f.next, s.thenBranch, p.block, join, join, TrueBranch, loops, t);
    BranchEnclosed(n, ArcsOf(f.edges), f.places, p, f.next, s.elseBranch, p.block, join, middle, FalseBranch, loops, e);
    BranchWired(n, s.thenBranch, c.Within(), join, join, loops);
    BranchWired(n, s.elseBranch, c.Within(), join, middle, loops);
    HostedBlock(n, ArcsOf(f.edges), f.places, p, f.next, s.id,
                {BranchEntry(s.thenBranch, join, join), BranchEntry(s.elseBranch, join, middle)});
  }

  lemma IfPlaced(own: seq<Place>, t: seq<Place>, e: seq<Place>, b: int, id: NodeId)
    requires own == [Place(b, id)]
    ensures forall x :: PlacedAt(own + t + e, x)
                        == (if x == b then [id] else []) + PlacedAt(t, x) + PlacedAt(e, x)
  {
    forall x
      ensures PlacedAt(own + t + e, x) == (if x == b then [id] else []) + PlacedAt(t, x) + PlacedAt(e, x)
    {
      PlacedAtAppend(own + t, e, x);
      PlacedAtAppend(own, t, x);
      assert PlacedAt(own, x) == if x == b then [id] else [];
    }
  }

  /** The starting block, when the fragment adds one statement to it and leaves it. */
  lemma HostedBlock(n: Net, arcs: set<(int, int)>, places: seq<Place>, p: Pos, next: Pos, id: NodeId, ts: set<int>)
    requires Hosts(n, arcs, places, p, next) && next.block != p.block
    requires PlacedAt(places, p.block) == [id]
    requires forall y :: (p.block, y) in arcs <==> y in ts
    ensures EndsWith(n, p.block, p.offset, id) && Targets(n, p.block, ts)
  {
    assert InRegion(p.block, p, next);
    assert At(n, p.block)[p.offset] == At(n, p.block)[p.offset..p.offset + 1][0];
  }

  lemma {:induction false} LoopWired(n: Net, s: Stmt, c: Context, p: Pos, loops: seq<LoopFrame>, f: Frag)
    requires s.Loop? && !Hollow(s) && Placed(p) && Regular(s, c) && (c.AtTop? || loops != [])
    requires f == LoopStep(s, p, loops) && HostsFrag(n, f, p)
    ensures WiredStep(n, s, p, loops)
    decreases OptionSize(s.body), 3
  {
    hide Walk, LoopBodyStep, Encloses, Hosts, PlacedAt, ArcsOf, HostsFrag, Wired, Confined;
    var header, after := p.counter + 1, p.counter + 2;
    var inner := InnerLoops(loops, p.counter);
    var body := Walk(Sequence(s.body), Fresh(after), inner);
    WalkConfined(Sequence(s.body), Fresh(after), inner);
    LoopEnclosed(n, s, p, loops, f, body);
    EnclosedIsHosted(n, body, after, {header}, inner);
    WalkWired(n, Sequence(s.body), InLoop, Fresh(after), inner);
    assert WiredHeader(n, s, p.counter, loops);
    assert WiredLoop(n, s, p, loops);
  }

  /** A bare compound statement: entered from the block before it, and left at
      its end to nowhere. */
  lemma {:induction false} CompoundWired(n: Net, s: Stmt, c: Context, p: Pos, loops: seq<LoopFrame>, f: Frag)
    requires s.Compound? && Placed(p) && Regular(s, c) && (c.AtTop? || loops != [])
    requires f == CompoundStep(s, p, loops) && HostsFrag(n, f, p)
    ensures WiredStep(n, s, p, loops)
    decreases SizeAll(s.children), 2
  {
    hide Walk, Encloses, Hosts, PlacedAt, ArcsOf, HostsFrag, Wired, Confined;
    var body := Walk(s.children, Fresh(p.counter), loops);
    WalkConfined(s.children, Fresh(p.counter), loops);
    CompoundEnclosed(n, s, p, loops, f, body);
    EnclosedIsHosted(n, body, p.counter, {}, loops);
    WalkWired(n, s.children, c.Within(), Fresh(p.counter), loops);
  }

  lemma CompoundEnclosed(n: Net, s: Stmt, p: Pos, loops: seq<LoopFrame>, f: Frag, body: Frag)
    requires s.Compound? && Placed(p)
    requires f == CompoundStep(s, p, loops) && HostsFrag(n, f, p)
    requires body == Walk(s.children, Fresh(p.counter), loops)
    ensures Encloses(n, body, p.counter, {})
    ensures Leads(n, p, {p.counter + 1})
  {
    hide Walk, PlacedAt, ArcsOf, Encloses;
    var e := Edge(p.block, p.counter + 1, Fallthrough);
    WalkConfined(s.children, Fresh(p.counter), loops);
    LoopSources(body, p.counter, loops);
    ArcsAppend(body.edges, [e]);
    ArcsOfOne(e);
    InnerEnclosed(n, ArcsOf(f.edges), f.places, p, f.next, body, p.counter, {});
    assert InRegion(p.block, p, f.next);
  }

  lemma LoopEnclosed(n: Net, s: Stmt, p: Pos, loops: seq<LoopFrame>, f: Frag, body: Frag)
    requires s.Loop? && s.body.Some? && Placed(p)
    requires f == LoopStep(s, p, loops) && HostsFrag(n, f, p)
    requires body == Walk(Sequence(s.body), Fresh(p.counter + 2), InnerLoops(loops, p.counter))
    ensures Encloses(n, body, p.counter + 2, {p.counter + 1})
    ensures Leads(n, p, {p.counter + 1})
    ensures At(n, p.counter + 1) == [s.id] && Targets(n, p.counter + 1, {p.counter + 3, p.counter + 2})
  {
    hide Walk, PlacedAt, ArcsOf, Encloses;
    var header, after := p.counter + 1, p.counter + 2;
    var inner := InnerLoops(loops, p.counter);
    WalkConfined(Sequence(s.body), Fresh(after), inner);
    var own := [Place(header, s.id)];
    LoopArcs(s, p, f, body, loops);
    LoopSources(body, after, inner);
    IfPlaced(own, body.places, [], header, s.id);
    assert f.places == own + body.places + [];
    forall x
      ensures PlacedAt([], x) == []
    {
      PlacedAtNowhere([], x);
    }
    InnerEnclosed(n, ArcsOf(f.edges), f.places, p, f.next, body, after, {header});
    assert InRegion(p.block, p, f.next) && InRegion(header, p, f.next);
    assert At(n, header)[0..1] == At(n, header);
  }

  lemma LoopSources(body: Frag, after: nat, inner: seq<LoopFrame>)
    requires Confined(body, Fresh(after), inner)
    ensures forall x, y :: (x, y) in ArcsOf(body.edges) ==> after < x <= body.next.counter && x != body.next.block
    ensures forall x :: x <= after ==> PlacedAt(body.places, x) == []
  {
    forall x, y | (x, y) in ArcsOf(body.edges)
      ensures after < x <= body.next.counter && x != body.next.block
    {
      ConfinedArcs(body, Fresh(after), inner, x, y);
    }
    forall x | x <= after
      ensures PlacedAt(body.places, x) == []
    {
      PlacedAtNowhere(body.places, x);
    }
  }

  lemma LoopArcs(s: Stmt, p: Pos, f: Frag, body: Frag, loops: seq<LoopFrame>)
    requires s.Loop? && s.body.Some?
    requires f == LoopStep(s, p, loops)
    requires body == Walk(Sequence(s.body), Fresh(p.counter + 2), InnerLoops(loops, p.counter))
    ensures f.places == [Place(p.counter + 1, s.id)] + body.places
    ensures f.next == Pos(p.counter + 2, 0, body.next.counter)
    ensures ArcsOf(f.edges) == {(p.block, p.counter + 1)} + ArcsOf(body.edges)
              + {(p.counter + 1, p.counter + 3), (body.next.block, p.counter + 1), (p.counter + 1, p.counter + 2)}
  {
    hide Walk, ArcsOf;
    var header, after := p.counter + 1, p.counter + 2;
    var a := [Edge(p.block, header, Fallthrough)];
    var kind := if s.kind.Do? then Fallthrough else TrueBranch;
    var b := [Edge(header, after + 1, kind), Edge(body.next.block, header, LoopBack)];
    var c := [Edge(header, after, FalseBranch)];
    var inner := InnerLoops(loops, p.counter);
    BodyWired(s.body, header, after, kind, inner);
    assert f == LoopShape(s.id, p, body.Wire(b));
    ArcsAppend(a + (body.edges + b), c);
    ArcsAppend(a, body.edges + b);
    ArcsAppend(body.edges, b);
    ArcsOfOne(a[0]);
    ArcsOfOne(c[0]);
    ArcsOfOne(b[0]);
    ArcsOfOne(b[1]);
    ArcsAppend([b[0]], [b[1]]);
    assert [b[0]] + [b[1]] == b;
  }

  lemma BodyWired(b: Option<Stmt>, header: int, counter: nat, kind: EdgeKind, loops: seq<LoopFrame>)
    requires b.Some?
    ensures var f := Walk(Sequence(b), Fresh(counter), loops);
            LoopBodyStep(b, header, counter, kind, loops)
            == f.Wire([Edge(header, counter + 1, kind), Edge(f.next.block, header, LoopBack)])
  {
  }

  lemma ArcsOfOne(e: Edge)
    ensures ArcsOf([e]) == {(e.source, e.target)}
  {
    assert e in [e];
  }

  // ------------------------------------------------------------------
  // Switches
  // ------------------------------------------------------------------

  lemma GroupArcs(group: seq<Stmt>, switchBlock: int, counter: nat, loops: seq<LoopFrame>, previous: Option<int>)
    requires group != [] && group[0].Case?
    ensures var f, body := GroupFrag(group, switchBlock, counter, loops, previous), Walk(group, Fresh(counter), loops);
      && f.places == body.places && f.next == body.next && f.gotos == body.gotos
      && ArcsOf(f.edges) == ArcsOf(body.edges) + {(switchBlock, counter + 1)}
                            + (if previous.Some? then {(previous.value, counter + 1)} else {})
  {
    hide Walk, ArcsOf;
    var body := Walk(group, Fresh(counter), loops);
    var a := [Edge(switchBlock, counter + 1, if group[0].isDefault then DefaultEdge else CaseEdge)];
    var b := if previous.Some? then [Edge(previous.value, counter + 1, SwitchFallthrough)] else [];
    ArcsAppend(body.edges, a + b);
    ArcsAppend(a, b);
    ArcsOfOne(a[0]);
    if previous.Some? {
      ArcsOfOne(b[0]);
    } else {
      NoArcs();
    }
  }

  lemma NoArcs()
    ensures ArcsOf([]) == {}
  {
  }

  /** The arcs of a row of groups start in the switch block, in the end of the
      group before them, or in their own blocks other than the last end. */
  ghost predicate GroupSources(groups: seq<seq<Stmt>>, switchBlock: int, counter: nat, loops: seq<LoopFrame>,
                               previous: Option<int>, f: Frag)
  {
    && (groups != [] ==> counter < f.next.block <= f.next.counter)
    && (forall y :: (switchBlock, y) in ArcsOf(f.edges) <==> y in Entries(groups, counter, loops))
    && (previous.Some? ==> forall y :: (previous.value, y) in ArcsOf(f.edges) <==> groups != [] && y == counter + 1)
    && (forall x, y :: (x, y) in ArcsOf(f.edges) && x != switchBlock && previous != Some(x)
          ==> counter < x <= f.next.counter && x != f.next.block)
    && (forall b :: b <= counter ==> PlacedAt(f.places, b) == [])
  }

  lemma {:induction false} GroupsSources(groups: seq<seq<Stmt>>, switchBlock: int, counter: nat, loops: seq<LoopFrame>,
                                         previous: Option<int>)
    requires forall g: seq<Stmt> :: g in groups ==> |g| > 0 && g[0].Case?
    requires switchBlock <= counter && (previous.Some? ==> switchBlock < previous.value <= counter)
    ensures GroupSources(groups, switchBlock, counter, loops, previous,
                         GroupsStep(groups, switchBlock, counter, loops, previous))
    decreases |groups|
  {
    if groups == [] {
      NoArcs();
    } else {
      hide Walk, ArcsOf, GroupFrag, PlacedAt;
      var f := GroupFrag(groups[0], switchBlock, counter, loops, previous);
      var body := Walk(groups[0], Fresh(counter), loops);
      GroupArcs(groups[0], switchBlock, counter, loops, previous);
      WalkConfined(groups[0], Fresh(counter), loops);
      LoopSources(body, counter, loops);
      var rest := GroupsStep(groups[1..], switchBlock, f.next.counter, loops, Some(f.next.block));
      GroupsSources(groups[1..], switchBlock, f.next.counter, loops, Some(f.next.block));
      assert GroupsStep(groups, switchBlock, counter, loops, previous) == f.Then(rest);
      SourcesThen(groups, switchBlock, counter, loops, previous, f, body, rest);
    }
  }

  lemma SourcesThen(groups: seq<seq<Stmt>>, switchBlock: int, counter: nat, loops: seq<LoopFrame>,
                    previous: Option<int>, f: Frag, body: Frag, rest: Frag)
    requires groups != [] && switchBlock <= counter && (previous.Some? ==> switchBlock < previous.value <= counter)
    requires body == Walk(groups[0], Fresh(counter), loops) && Confined(body, Fresh(counter), loops)
    requires f.places == body.places && f.next == body.next
    requires ArcsOf(f.edges) == ArcsOf(body.edges) + {(switchBlock, counter + 1)}
                                + (if previous.Some? then {(previous.value, counter + 1)} else {})
    requires |groups| == 1 ==> rest == Nothing(Pos(f.next.block, 0, f.next.counter))
    requires GroupSources(groups[1..], switchBlock, f.next.counter, loops, Some(f.next.block), rest)
    requires rest.next.counter >= f.next.counter
    ensures GroupSources(groups, switchBlock, counter, loops, previous, f.Then(rest))
  {
    hide Walk, ArcsOf, PlacedAt;
    LoopSources(body, counter, loops);
    ArcsAppend(f.edges, rest.edges);
    forall b | b <= counter
      ensures PlacedAt(f.places + rest.places, b) == []
    {
      PlacedAtAppend(f.places, rest.places, b);
    }
  }

  /** A row of groups in a graph that holds it and leads from its end out of the switch. */
  lemma {:induction false} GroupsWired(n: Net, groups: seq<seq<Stmt>>, switchBlock: int, counter: nat, after: nat,
                                       loops: seq<LoopFrame>, previous: Option<int>)
    requires forall g: seq<Stmt> :: g in groups ==> |g| > 0 && g[0].Case? && RegularAll(g, AmongCases)
    requires groups != [] && loops != []
    requires switchBlock <= counter && (previous.Some? ==> switchBlock < previous.value <= counter)
    requires Encloses(n, GroupsStep(groups, switchBlock, counter, loops, previous), counter, {after})
    ensures WiredGroups(n, groups, counter, after, loops)
    decreases SizeGroups(groups), 2, |groups|
  {
    hide Walk, GroupsStep, Encloses, RegularAll, Wired, WiredGroups, Leads, Confined, SizeAll, HostsFrag;
    var body := Walk(groups[0], Fresh(counter), loops);
    GroupsEnclosed(n, groups, switchBlock, counter, after, loops, previous);
    WalkConfined(groups[0], Fresh(counter), loops);
    EnclosedIsHosted(n, body, counter, {if |groups| == 1 then after else body.next.counter + 1}, loops);
    WalkWired(n, groups[0], AmongCases, Fresh(counter), loops);
    if |groups| == 1 {
      NoGroupsWired(n, body.next.counter, after, loops);
      assert groups[1..] == [];
    } else {
      GroupsShrink(groups);
      GroupsWired(n, groups[1..], switchBlock, body.next.counter, after, loops, Some(body.next.block));
    }
    OneMoreGroup(n, groups, counter, after, loops);
  }

  lemma OneMoreGroup(n: Net, groups: seq<seq<Stmt>>, counter: nat, after: nat, loops: seq<LoopFrame>)
    requires groups != [] && groups[0] != [] && RegularAll(groups[0], AmongCases)
    requires Wired(n, groups[0], Fresh(counter), loops)
    requires var next := Walk(groups[0], Fresh(counter), loops).next;
      && Leads(n, next, {if |groups| == 1 then after else next.counter + 1})
      && WiredGroups(n, groups[1..], next.counter, after, loops)
    ensures WiredGroups(n, groups, counter, after, loops)
  {
    hide Walk, RegularAll, Wired, Leads;
  }

  lemma GroupsEnclosed(n: Net, groups: seq<seq<Stmt>>, switchBlock: int, counter: nat, after: nat,
                       loops: seq<LoopFrame>, previous: Option<int>)
    requires forall g: seq<Stmt> :: g in groups ==> |g| > 0 && g[0].Case?
    requires groups != []
    requires switchBlock <= counter && (previous.Some? ==> switchBlock < previous.value <= counter)
    requires Encloses(n, GroupsStep(groups, switchBlock, counter, loops, previous), counter, {after})
    ensures var body := Walk(groups[0], Fresh(counter), loops);
      && Encloses(n, body, counter, {if |groups| == 1 then after else body.next.counter + 1})
      && (|groups| > 1 ==>
            Encloses(n, GroupsStep(groups[1..], switchBlock, body.next.counter, loops, Some(body.next.block)),
                     body.next.counter, {after}))
      && counter < body.next.block <= body.next.counter
  {
    hide Walk, ArcsOf, GroupFrag, PlacedAt, Encloses, HoldsFrom;
    var f := GroupFrag(groups[0], switchBlock, counter, loops, previous);
    var body := Walk(groups[0], Fresh(counter), loops);
    GroupArcs(groups[0], switchBlock, counter, loops, previous);
    WalkConfined(groups[0], Fresh(counter), loops);
    LoopSources(body, counter, loops);
    var rest := GroupsStep(groups[1..], switchBlock, f.next.counter, loops, Some(f.next.block));
    GroupsSources(groups[1..], switchBlock, f.next.counter, loops, Some(f.next.block));
    GroupsAttached(groups[1..], switchBlock, f.next.counter, loops, Some(f.next.block));
    assert GroupsStep(groups, switchBlock, counter, loops, previous) == f.Then(rest);
    ArcsAppend(f.edges, rest.edges);
    NoArcs();
    EnclosedFirst(n, groups, switchBlock, counter, after, loops, previous, f, body, rest);
    if |groups| > 1 {
      EnclosedRest(n, groups, switchBlock, counter, after, loops, previous, f, body, rest);
    }
  }

  /** A group and the row of groups after it, joined. */
  ghost predicate GroupThenRest(groups: seq<seq<Stmt>>, switchBlock: int, counter: nat, loops: seq<LoopFrame>,
                                previous: Option<int>, f: Frag, body: Frag, rest: Frag)
  {
    && groups != [] && switchBlock <= counter && (previous.Some? ==> switchBlock < previous.value <= counter)
    && Confined(body, Fresh(counter), loops)
    && f.places == body.places && f.next == body.next
    && ArcsOf(f.edges) == ArcsOf(body.edges) + {(switchBlock, counter + 1)}
                          + (if previous.Some? then {(previous.value, counter + 1)} else {})
    && (|groups| == 1 ==> rest == Nothing(Pos(f.next.block, 0, f.next.counter)))
    && GroupSources(groups[1..], switchBlock, f.next.counter, loops, Some(f.next.block), rest)
    && rest.next.counter >= f.next.counter
    && ArcsOf(f.edges + rest.edges) == ArcsOf(f.edges) + ArcsOf(rest.edges)
    && ArcsOf([]) == {}
  }

  lemma EnclosedFirst(n: Net, groups: seq<seq<Stmt>>, switchBlock: int, counter: nat, after: nat, loops: seq<LoopFrame>,
                      previous: Option<int>, f: Frag, body: Frag, rest: Frag)
    requires GroupThenRest(groups, switchBlock, counter, loops, previous, f, body, rest)
    requires Encloses(n, f.Then(rest), counter, {after})
    ensures Encloses(n, body, counter, {if |groups| == 1 then after else body.next.counter + 1})
  {
    hide ArcsOf, PlacedAt, HoldsFrom;
    LoopSources(body, counter, loops);
    forall b | counter < b <= body.next.counter
      ensures HoldsFrom(n, b, 0, PlacedAt(body.places, b), false)
    {
      PlacedAtAppend(f.places, rest.places, b);
      assert PlacedAt(f.places, b) + [] == PlacedAt(f.places, b);
    }
  }

  lemma EnclosedRest(n: Net, groups: seq<seq<Stmt>>, switchBlock: int, counter: nat, after: nat, loops: seq<LoopFrame>,
                     previous: Option<int>, f: Frag, body: Frag, rest: Frag)
    requires |groups| > 1 && GroupThenRest(groups, switchBlock, counter, loops, previous, f, body, rest)
    requires Encloses(n, f.Then(rest), counter, {after})
    ensures Encloses(n, rest, f.next.counter, {after})
  {
    hide ArcsOf, PlacedAt, HoldsFrom;
    LoopSources(body, counter, loops);
    forall b | f.next.counter < b <= rest.next.counter
      ensures HoldsFrom(n, b, 0, PlacedAt(rest.places, b), false)
    {
      PlacedAtAppend(f.places, rest.places, b);
      PlacedAtNowhere(f.places, b);
      assert [] + PlacedAt(rest.places, b) == PlacedAt(rest.places, b);
    }
  }

  lemma {:induction false} SwitchWired(n: Net, s: Stmt, p: Pos, loops: seq<LoopFrame>, f: Frag)
    requires s.Switch? && Placed(p) && Braced(s.compound) && RegularAll(Sequence(s.compound), AmongCases)
    requires f == SwitchStep(s, p, loops) && HostsFrag(n, f, p)
    ensures WiredStep(n, s, p, loops)
    decreases OptionSize(s.compound), 3
  {
    hide Walk, GroupsStep, CaseGroups, Hosts, PlacedAt, ArcsOf, WiredGroups, Regular, RegularAll, HasDefault, Entries;
    var groups, after, inner := CaseGroups(Sequence(s.compound)), p.counter + 1, SwitchLoops(loops, p);
    SwitchEnclosed(n, s, p, loops, f);
    GroupsAreRegular(Sequence(s.compound), AmongCases);
    if groups == [] {
      NoGroupsWired(n, after, after, inner);
    } else {
      GroupsWired(n, groups, p.block, after, after, inner, None);
    }
  }

  lemma NoGroupsWired(n: Net, counter: nat, after: nat, loops: seq<LoopFrame>)
    ensures WiredGroups(n, [], counter, after, loops)
  {
  }

  lemma SwitchEnclosed(n: Net, s: Stmt, p: Pos, loops: seq<LoopFrame>, f: Frag)
    requires s.Switch? && Placed(p) && Braced(s.compound)
    requires f == SwitchStep(s, p, loops) && HostsFrag(n, f, p)
    ensures var groups, after, inner := CaseGroups(Sequence(s.compound)), p.counter + 1, SwitchLoops(loops, p);
      && EndsWith(n, p.block, p.offset, s.id)
      && Targets(n, p.block, SwitchTargets(groups, after, inner))
      && (groups != [] ==> Encloses(n, GroupsStep(groups, p.block, after, inner, None), after, {after}))
  {
    hide GroupsStep, CaseGroups, Hosts, PlacedAt, ArcsOf, HasDefault, Entries, Encloses;
    var groups, after, inner := CaseGroups(Sequence(s.compound)), p.counter + 1, SwitchLoops(loops, p);
    var g := GroupsStep(groups, p.block, after, inner, None);
    SwitchHolds(s, p, loops, f, g);
    HostedBlock(n, ArcsOf(f.edges), f.places, p, f.next, s.id, SwitchTargets(groups, after, inner));
    if groups != [] {
      InnerEnclosed(n, ArcsOf(f.edges), f.places, p, f.next, g, after, {after});
    }
  }

  /** The arcs and placements of a switch, around those of its groups. */
  lemma SwitchHolds(s: Stmt, p: Pos, loops: seq<LoopFrame>, f: Frag, g: Frag)
    requires s.Switch? && Placed(p) && Braced(s.compound) && f == SwitchStep(s, p, loops)
    requires g == GroupsStep(CaseGroups(Sequence(s.compound)), p.block, p.counter + 1, SwitchLoops(loops, p), None)
    ensures var groups, after, inner := CaseGroups(Sequence(s.compound)), p.counter + 1, SwitchLoops(loops, p);
      && f.next == Pos(after, 0, g.next.counter)
      && GroupSources(groups, p.block, after, inner, None, g)
      && ArcsOf(f.edges) == ArcsOf(g.edges) + (if groups == [] then {} else {(g.next.block, after)})
                            + (if HasDefault(groups) then {} else {(p.block, after)})
      && (forall b :: PlacedAt(f.places, b) == if b == p.block then [s.id] else PlacedAt(g.places, b))
  {
    hide GroupsStep, CaseGroups, PlacedAt, ArcsOf, HasDefault, Entries, SwitchExits;
    var groups, after, inner := CaseGroups(Sequence(s.compound)), p.counter + 1, SwitchLoops(loops, p);
    var exits := SwitchExits(p.block, after, groups, g.next.block);
    GroupsSources(groups, p.block, after, inner, None);
    assert f == SwitchShape(s.id, p, g, exits);
    assert f.edges == g.edges + exits && f.places == [Place(p.block, s.id)] + g.places;
    ArcsAppend(g.edges, exits);
    ExitArcs(p.block, after, groups, g.next.block);
    forall b
      ensures PlacedAt(f.places, b) == if b == p.block then [s.id] else PlacedAt(g.places, b)
    {
      PlacedFirst(p.block, s.id, g.places, b);
    }
  }

  lemma PlacedFirst(block: int, id: NodeId, places: seq<Place>, b: int)
    ensures PlacedAt([Place(block, id)] + places, b) == (if b == block then [id] else []) + PlacedAt(places, b)
    ensures b != block ==> PlacedAt([Place(block, id)] + places, b) == PlacedAt(places, b)
  {
    assert ([Place(block, id)] + places)[1..] == places;
  }

  lemma ExitArcs(switchBlock: int, after: int, groups: seq<seq<Stmt>>, tail: int)
    requires forall g: seq<Stmt> :: g in groups ==> |g| > 0 && g[0].Case?
    ensures ArcsOf(SwitchExits(switchBlock, after, groups, tail))
            == (if groups == [] then {} else {(tail, after)}) + (if HasDefault(groups) then {} else {(switchBlock, after)})
  {
    hide ArcsOf, HasDefault;
    var a, b := [Edge(tail, after, Fallthrough)], [Edge(switchBlock, after, NoMatch)];
    NoArcs();
    ArcsOfOne(a[0]);
    ArcsOfOne(b[0]);
    ArcsAppend(if groups == [] then [] else a, if HasDefault(groups) then [] else b);
  }
}
