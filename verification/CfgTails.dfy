/** The end of a function body: where the builder leaves off, and when it gives
    that block a way to the exit. */
module CfgTails {
  import opened Collections
  import opened Ast
  import opened Paths
  import opened CfgSpec
  import opened CfgWellFormed
  import opened CfgNodes
  import opened CfgTheorem
  import opened CfgPrune

  /** The block in which building the body ends. */
  function TailOf(body: seq<Stmt>): int
  {
    BuildSequence(body, 0, []).next.block
  }

  ghost predicate OnlyGotosEnter(g: Cfg, b: int)
  {
    forall e :: e in g.edges && e.target == b ==> e.kind == GotoEdge
  }

  // ----- Building adds no goto edges -----

  ghost predicate NoGotoEdges(edges: seq<Edge>)
  {
    forall e :: e in edges ==> e.kind != GotoEdge
  }

  lemma {:induction false} WalkNoGotoEdges(ss: seq<Stmt>, p: Pos, loops: seq<LoopFrame>)
    ensures NoGotoEdges(Walk(ss, p, loops).edges)
    decreases SizeAll(ss), 1
  {
    if ss != [] {
      hide Step;
      var f := Step(ss[0], p, loops);
      StepNoGotoEdges(ss[0], p, loops);
      WalkNoGotoEdges(ss[1..], f.next, loops);
      assert Walk(ss, p, loops) == f.Then(Walk(ss[1..], f.next, loops));
    }
  }

  lemma NoGotosAppend(a: seq<Edge>, b: seq<Edge>)
    requires NoGotoEdges(a) && NoGotoEdges(b)
    ensures NoGotoEdges(a + b)
  {
  }

  lemma {:induction false} StepNoGotoEdges(s: Stmt, p: Pos, loops: seq<LoopFrame>)
    ensures NoGotoEdges(Step(s, p, loops).edges)
    decreases Size(s), 0
  {
    hide CompoundStep, IfStep, LoopStep, SwitchStep;
    match s
    case Compound(_, _) => CompoundNoGotoEdges(s, p, loops);
    case If(_, _, _) => IfNoGotoEdges(s, p, loops);
    case Loop(_, _, _) => LoopNoGotoEdges(s, p, loops);
    case Switch(_, _) => SwitchNoGotoEdges(s, p, loops);
    case _ =>
  }

  lemma {:induction false} CompoundNoGotoEdges(s: Stmt, p: Pos, loops: seq<LoopFrame>)
    requires s.Compound?
    ensures NoGotoEdges(CompoundStep(s, p, loops).edges)
    decreases SizeAll(s.children), 3
  {
    hide Walk;
    WalkNoGotoEdges(s.children, Fresh(p.counter), loops);
  }

  lemma {:induction false} LoopNoGotoEdges(s: Stmt, p: Pos, loops: seq<LoopFrame>)
    requires s.Loop?
    ensures NoGotoEdges(LoopStep(s, p, loops).edges)
    decreases OptionSize(s.body), 4
  {
    hide LoopBodyStep;
    BodyNoGotoEdges(s.body, 0, p.counter + 1, p.counter + 2, if s.kind.Do? then Fallthrough else TrueBranch,
                    loops + [LoopFrame(p.counter + 1, p.counter + 2)]);
  }

  lemma {:induction false} IfNoGotoEdges(s: Stmt, p: Pos, loops: seq<LoopFrame>)
    requires s.If?
    ensures NoGotoEdges(IfStep(s, p, loops).edges)
    decreases OptionSize(s.thenBranch) + OptionSize(s.elseBranch), 4
  {
    hide BranchStep, NoGotoEdges;
    var join := p.counter + 1;
    var f := BranchStep(s.thenBranch, p.block, join, join, TrueBranch, loops);
    var g := BranchStep(s.elseBranch, p.block, join, f.next.counter, FalseBranch, loops);
    BodyNoGotoEdges(s.thenBranch, p.block, join, join, TrueBranch, loops);
    BodyNoGotoEdges(s.elseBranch, p.block, join, f.next.counter, FalseBranch, loops);
    NoGotosAppend(f.edges, g.edges);
    assert [] + f.edges == f.edges;
  }

  lemma {:induction false} SwitchNoGotoEdges(s: Stmt, p: Pos, loops: seq<LoopFrame>)
    requires s.Switch?
    ensures NoGotoEdges(SwitchStep(s, p, loops).edges)
    decreases OptionSize(s.compound), 5
  {
    hide GroupsStep, SwitchExits, NoGotoEdges, CaseGroups;
    var after := p.counter + 1;
    if s.compound.Some? && s.compound.value.Compound? {
      var groups := CaseGroups(s.compound.value.children);
      assert SizeGroups(groups) < Size(s.compound.value);
      var f := GroupsStep(groups, p.block, after, loops + [LoopFrame(p.block, after)], None);
      GroupsNoGotoEdges(groups, p.block, after, loops + [LoopFrame(p.block, after)], None);
      ExitsNoGotoEdges(p.block, after, groups, f.next.block);
      NoGotosAppend(f.edges, SwitchExits(p.block, after, groups, f.next.block));
      assert [] + f.edges == f.edges;
    } else {
      ExitNoGotoEdge(Edge(p.block, after, Fallthrough));
      assert [] + [] + [Edge(p.block, after, Fallthrough)] == [Edge(p.block, after, Fallthrough)];
    }
  }

  lemma ExitsNoGotoEdges(switchBlock: int, after: int, groups: seq<seq<Stmt>>, tail: int)
    requires forall g: seq<Stmt> :: g in groups ==> |g| > 0 && g[0].Case?
    ensures NoGotoEdges(SwitchExits(switchBlock, after, groups, tail))
  {
    hide HasDefault;
  }

  lemma ExitNoGotoEdge(e: Edge)
    requires e.kind != GotoEdge
    ensures NoGotoEdges([e])
  {
  }

  lemma {:induction false} BodyNoGotoEdges(b: Option<Stmt>, branch: int, join: int, counter: nat, kind: EdgeKind,
                                           loops: seq<LoopFrame>)
    requires kind != GotoEdge
    ensures NoGotoEdges(BranchStep(b, branch, join, counter, kind, loops).edges)
    ensures NoGotoEdges(LoopBodyStep(b, join, counter, kind, loops).edges)
    decreases OptionSize(b), 2
  {
    if b.Some? {
      hide Walk;
      WalkNoGotoEdges(Sequence(b), Fresh(counter), loops);
    }
  }

  lemma {:induction false} GroupsNoGotoEdges(groups: seq<seq<Stmt>>, switchBlock: int, counter: nat,
                                             loops: seq<LoopFrame>, previous: Option<int>)
    requires forall g: seq<Stmt> :: g in groups ==> |g| > 0 && g[0].Case?
    ensures NoGotoEdges(GroupsStep(groups, switchBlock, counter, loops, previous).edges)
    decreases SizeGroups(groups), 4, |groups|
  {
    if groups != [] {
      hide GroupFrag, NoGotoEdges;
      var f := GroupFrag(groups[0], switchBlock, counter, loops, previous);
      GroupNoGotoEdges(groups[0], switchBlock, counter, loops, previous);
      var g := GroupsStep(groups[1..], switchBlock, f.next.counter, loops, Some(f.next.block));
      GroupsNoGotoEdges(groups[1..], switchBlock, f.next.counter, loops, Some(f.next.block));
      NoGotosAppend(f.edges, g.edges);
    } else {
      assert NoGotoEdges([]);
    }
  }

  lemma {:induction false} GroupNoGotoEdges(group: seq<Stmt>, switchBlock: int, counter: nat, loops: seq<LoopFrame>,
                                            previous: Option<int>)
    requires |group| > 0 && group[0].Case?
    ensures NoGotoEdges(GroupFrag(group, switchBlock, counter, loops, previous).edges)
    decreases SizeAll(group), 3
  {
    hide Walk;
    WalkNoGotoEdges(group, Fresh(counter), loops);
  }

  // ----- The way out of the tail -----

  lemma {:induction false} GotoEdgesAre(gotos: seq<PendingGoto>, labels: seq<LabelDef>)
    ensures forall e :: e in GotoEdges(gotos, labels) ==> e.kind == GotoEdge && exists g :: g in gotos && g.block == e.source
  {
    if gotos != [] {
      GotoEdgesAre(gotos[1..], labels);
    }
  }

  /** The edges of the whole graph, sorted by where they come from. */
  lemma RawEdges(body: seq<Stmt>, f: Frag, e: Edge)
    requires body != [] && f == BuildSequence(body, 0, [])
    ensures e in RawGraph(body).edges <==>
      || e in f.edges
      || e == Edge(ENTRY, 1, Fallthrough)
      || (e == Edge(f.next.block, EXIT, ImplicitReturn) && (f.next.block == 1 || HasEdgeInto(f.edges, f.next.block)))
      || e in GotoEdges(f.gotos, f.labels)
  {
    hide BuildSequence, GotoEdges;
    SequenceConfinedBody(body, f);
    var edges := f.edges + [Edge(ENTRY, 1, Fallthrough)];
    ImplicitReturnWhen(f, edges);
    assert AllEdges(f) == edges + ImplicitReturnEdges(edges, f.next.block) + GotoEdges(f.gotos, f.labels);
  }

  lemma SequenceConfinedBody(body: seq<Stmt>, f: Frag)
    requires f == BuildSequence(body, 0, [])
    ensures Confined(f, Fresh(0), [])
  {
    SequenceConfined(body, 0, []);
  }

  /** Every arc out of the end of the body is its implicit return, and it has
      one iff it starts the body or something other than a goto leads to it. */
  lemma TailLeadsOut(body: seq<Stmt>, y: int)
    requires body != []
    ensures (TailOf(body), y) in RawGraph(body).Arcs() <==> y == EXIT && !OnlyGotosEnter(RawGraph(body), TailOf(body))
  {
    hide RawGraph, BuildSequence, GotoEdges;
    var g, f := RawGraph(body), BuildSequence(body, 0, []);
    var tail := f.next.block;
    SequenceConfinedBody(body, f);
    GotoEdgesAre(f.gotos, f.labels);
    TailEntered(body, f);
    ArcOfEdge(g.edges, tail, y);
    RawEdges(body, f, Edge(tail, EXIT, ImplicitReturn));
    forall e | e in g.edges && e.source == tail
      ensures e == Edge(tail, EXIT, ImplicitReturn)
    {
      RawEdges(body, f, e);
    }
  }

  lemma TailEntered(body: seq<Stmt>, f: Frag)
    requires body != [] && f == BuildSequence(body, 0, [])
    ensures OnlyGotosEnter(RawGraph(body), f.next.block) <==> f.next.block != 1 && !HasEdgeInto(f.edges, f.next.block)
  {
    hide RawGraph, GotoEdges, Walk;
    var g := RawGraph(body);
    SequenceConfinedBody(body, f);
    WalkNoGotoEdges(body, Fresh(0), []);
    GotoEdgesAre(f.gotos, f.labels);
    RawEdges(body, f, Edge(ENTRY, 1, Fallthrough));
    if HasEdgeInto(f.edges, f.next.block) {
      var e :| e in f.edges && e.target == f.next.block;
      RawEdges(body, f, e);
    }
    forall e | e in g.edges && e.target == f.next.block && f.next.block != 1 && !HasEdgeInto(f.edges, f.next.block)
      ensures e.kind == GotoEdge
    {
      RawEdges(body, f, e);
    }
  }

  /** The end of the body reaches the exit iff something other than a goto
      leads to it. */
  lemma TailReachesExit(body: seq<Stmt>)
    requires body != []
    ensures Reaches(RawGraph(body).Arcs(), TailOf(body), EXIT) <==> !OnlyGotosEnter(RawGraph(body), TailOf(body))
  {
    hide RawGraph, BuildSequence, OnlyGotosEnter;
    var arcs, tail := RawGraph(body).Arcs(), TailOf(body);
    TailInBody(body);
    TailLeadsOut(body, EXIT);
    if (tail, EXIT) in arcs {
      ReachesArc(arcs, tail, EXIT);
    }
    if Reaches(arcs, tail, EXIT) {
      var p :| WalkFromTo(arcs, p, tail, EXIT);
      assert |p| > 1 && (p[0], p[1]) in arcs;
      TailLeadsOut(body, p[1]);
    }
  }

  lemma TailInBody(body: seq<Stmt>)
    requires body != []
    ensures TailOf(body) > 0 && TailOf(body) in RawGraph(body).blocks
  {
    hide Walk, GotoEdges, AllEdges;
    SequenceConfined(body, 0, []);
  }

  // ----- The same, read off the tree -----

  /** After a statement: whether something other than a goto leads to the block
      where building goes on, given that for the block before, and whether that
      one was empty. A jump and a bare compound statement leave an empty block
      that nothing leads to; the branches of an `if`, a loop and a `switch` meet
      in a block of their own; a label starts one unless the current one is empty. */
  predicate NextEntered(s: Stmt, entered: bool, empty: bool)
  {
    match s
    case Plain(_) => entered
    case Case(_, _) => entered
    case Label(_, _) => entered || !empty
    case If(_, _, _) => true
    case Loop(_, _, _) => true
    case Switch(_, _) => true
    case _ => false
  }

  predicate NextEmpty(s: Stmt)
  {
    !s.Plain? && !s.Case? && !s.Label?
  }

  predicate EndEntered(ss: seq<Stmt>, entered: bool, empty: bool)
  {
    if ss == [] then entered else EndEntered(ss[1..], NextEntered(ss[0], entered, empty), NextEmpty(ss[0]))
  }

  ghost predicate Entered(f: Frag, p: Pos, entered: bool)
  {
    (f.next.block == p.block && entered) || HasEdgeInto(f.edges, f.next.block)
  }

  lemma {:induction false} WalkEnd(ss: seq<Stmt>, p: Pos, entered: bool)
    requires Placed(p)
    ensures Entered(Walk(ss, p, []), p, entered) <==> EndEntered(ss, entered, p.offset == 0)
    decreases |ss|
  {
    if ss != [] {
      hide Step, HasEdgeInto;
      var f := Step(ss[0], p, []);
      StepConfined(ss[0], p, []);
      EndPlaced(f, p);
      var here := Entered(f, p, entered);
      var g := Walk(ss[1..], f.next, []);
      WalkConfined(ss[1..], f.next, []);
      WalkEnd(ss[1..], f.next, here);
      EnteredThen(f, g, p, entered);
      StepEnd(ss[0], p, entered);
    }
  }

  lemma EndPlaced(f: Frag, p: Pos)
    requires Placed(p) && Confined(f, p, [])
    ensures Placed(f.next)
  {
  }

  lemma EnteredThen(f: Frag, g: Frag, p: Pos, entered: bool)
    requires Placed(p) && Confined(f, p, []) && Confined(g, f.next, [])
    ensures Entered(f.Then(g), p, entered) <==> Entered(g, f.next, Entered(f, p, entered))
  {
    EdgeIntoEither(f.edges, g.edges, g.next.block);
    assert forall e :: e in f.edges + g.edges ==> e in f.edges || e in g.edges;
  }

  lemma StepEnd(s: Stmt, p: Pos, entered: bool)
    requires Placed(p)
    ensures var f := Step(s, p, []);
      && NextEntered(s, entered, p.offset == 0) == Entered(f, p, entered)
      && NextEmpty(s) == (f.next.offset == 0)
  {
    hide BuildSequence, CompoundStep, IfStep, LoopStep, SwitchStep;
    match s
    case Label(_, _) =>
      if p.offset > 0 {
        assert Step(s, p, []).edges[0] in Step(s, p, []).edges;
      }
    case Compound(_, _) => CompoundEnd(s, p);
    case If(_, _, _) => IfEndIsEntered(s, p, []);
    case Loop(_, _, _) => LoopEndIsEntered(s, p, []);
    case Switch(_, _) => SwitchEndIsEntered(s, p, []);
    case _ =>
  }

  lemma CompoundEnd(s: Stmt, p: Pos)
    requires s.Compound? && Placed(p)
    ensures var f := CompoundStep(s, p, []);
      f.next.block != p.block && !HasEdgeInto(f.edges, f.next.block) && f.next.offset == 0
  {
    hide BuildSequence;
    SequenceConfined(s.children, p.counter, []);
  }

  /** Only gotos lead to the end of a body iff its tree says so. */
  lemma TailOnTree(body: seq<Stmt>)
    requires body != []
    ensures OnlyGotosEnter(RawGraph(body), TailOf(body)) <==> !EndEntered(body, true, true)
  {
    hide RawGraph, Walk, HasEdgeInto, EndEntered;
    TailEntered(body, BuildSequence(body, 0, []));
    WalkEnd(body, Fresh(0), true);
  }

  // ----- After pruning -----

  /** The block is left, if at all, by implicit returns only. */
  ghost predicate ReturnsOnly(g: Cfg, b: int)
  {
    forall e :: e in g.edges && e.source == b ==> e.kind == ImplicitReturn
  }

  lemma {:induction false} ReturnsOnlySurvives(gs: seq<Cfg>, b: int)
    requires PruneSteps(gs) && b in gs[0].blocks && ReturnsOnly(gs[0], b)
    ensures b in Last(gs).blocks && ReturnsOnly(Last(gs), b)
    decreases |gs|
  {
    if |gs| > 1 {
      PruneStepsFront(gs);
      ReturnsOnlySurvives(gs[..|gs| - 1], b);
      var g := gs[|gs| - 2];
      var c :| Collapsible(g, c) && gs[|gs| - 1] == Collapse(g, c);
      CollapseKeepsReturns(g, c, b);
    }
  }

  lemma CollapseKeepsReturns(g: Cfg, c: int, b: int)
    requires Collapsible(g, c) && b in g.blocks && ReturnsOnly(g, b)
    ensures b in Collapse(g, c).blocks && ReturnsOnly(Collapse(g, c), b)
  {
    var out := Successors(g.edges, c);
    assert out[0] in out;
    var moved := Retarget(g.edges, c, out[0].target);
    forall e | e in Collapse(g, c).edges && e.source == b
      ensures e.kind == ImplicitReturn
    {
      var i :| 0 <= i < |moved| && moved[i] == e;
      assert g.edges[i] in g.edges;
    }
  }

  /** On the graph that is returned: the end of the body is still there, it is
      reached iff it was, and it reaches the exit iff something other than a
      goto led to it when the implicit return was decided. */
  lemma PrunedTailReachesExit(body: seq<Stmt>, h: Cfg)
    requires body != [] && PrunedTo(RawGraph(body), h)
    ensures TailOf(body) in h.blocks
    ensures Reaches(h.Arcs(), ENTRY, TailOf(body)) <==> Reaches(RawGraph(body).Arcs(), ENTRY, TailOf(body))
    ensures Reaches(h.Arcs(), TailOf(body), EXIT) <==> !OnlyGotosEnter(RawGraph(body), TailOf(body))
  {
    hide RawGraph, BuildSequence, OnlyGotosEnter, Reaches;
    var g, tail := RawGraph(body), TailOf(body);
    var gs :| PruneSteps(gs) && gs[0] == g && Last(gs) == h;
    TailInBody(body);
    TailReturnsOnly(body);
    ReturnsOnlySurvives(gs, tail);
    RawGraphWellFormed(body);
    PrunedBlocks(gs);
    PrunedReach(gs, ENTRY, tail);
    PrunedReach(gs, tail, EXIT);
    TailReachesExit(body);
  }

  lemma TailReturnsOnly(body: seq<Stmt>)
    requires body != []
    ensures ReturnsOnly(RawGraph(body), TailOf(body))
  {
    hide RawGraph, BuildSequence, GotoEdges;
    var f := BuildSequence(body, 0, []);
    SequenceConfinedBody(body, f);
    GotoEdgesAre(f.gotos, f.labels);
    forall e | e in RawGraph(body).edges && e.source == f.next.block
      ensures e.kind == ImplicitReturn
    {
      RawEdges(body, f, e);
    }
  }

  /** The end of a body reaches the exit, in the graph as first built and in the
      one that is returned, iff the last statement that leaves its block leaves it
      for one that something leads to. */
  lemma EndReachesExit(body: seq<Stmt>, h: Cfg)
    requires body != [] && PrunedTo(RawGraph(body), h)
    ensures Reaches(RawGraph(body).Arcs(), TailOf(body), EXIT) <==> EndEntered(body, true, true)
    ensures Reaches(h.Arcs(), TailOf(body), EXIT) <==> EndEntered(body, true, true)
  {
    hide RawGraph, BuildSequence, OnlyGotosEnter, Reaches, EndEntered, PrunedTo;
    TailOnTree(body);
    TailReachesExit(body);
    PrunedTailReachesExit(body, h);
  }
}
