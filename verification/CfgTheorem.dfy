/** The graph of a structured function body has exactly the runs of the body:
    a sequence of statements is executed by some complete run if and only if it
    is met along some path from the entry to the exit. */
module CfgTheorem {
  import opened Collections
  import opened Ast
  import opened Runs
  import opened SwitchGroups
  import opened Paths
  import opened CfgSpec
  import opened CfgWellFormed
  import opened CfgPaths
  import opened CfgWiring
  import opened Readings
  import opened Agreement

  /** Some path of the graph from entry to exit meets the statements `t`. */
  ghost predicate GraphTrace(g: Cfg, t: seq<NodeId>)
  {
    exists p :: WalkFromTo(g.Arcs(), p, ENTRY, EXIT) && Trace(NetOf(g), p) == t
  }

  lemma {:induction false} FollowsIsWalk(n: Net, p: seq<int>, b: int, t: seq<NodeId>)
    requires Follows(n, p, b, 0, t)
    ensures WalkFromTo(n.arcs, p, b, EXIT) && Trace(n, p) == t
    decreases |p|
  {
    var rest := t[|At(n, b)|..];
    assert At(n, b)[0..] == At(n, b);
    assert t == At(n, b) + rest;
    if |p| > 1 {
      FollowsIsWalk(n, p[1..], p[1], rest);
      forall i | 0 < i < |p|
        ensures (p[i - 1], p[i]) in n.arcs
      {
        if i > 1 {
          assert p[i] == p[1..][i - 1] && p[i - 1] == p[1..][i - 2];
        }
      }
      assert Last(p) == Last(p[1..]);
    } else {
      assert p[1..] == [];
    }
  }

  lemma {:induction false} WalkFollows(n: Net, p: seq<int>, b: int)
    requires WalkFromTo(n.arcs, p, b, EXIT)
    ensures Follows(n, p, b, 0, Trace(n, p))
    decreases |p|
  {
    var t := Trace(n, p);
    assert At(n, b)[0..] == At(n, b);
    assert t[|At(n, b)|..] == Trace(n, p[1..]);
    if |p| > 1 {
      WalkBack(n.arcs, p, 1);
      assert (p[0], p[1]) in n.arcs;
      WalkFollows(n, p[1..], p[1]);
    }
  }

  // ------------------------------------------------------------------
  // Facts about structured bodies
  // ------------------------------------------------------------------

  lemma {:induction false} WalkNoGotos(ss: seq<Stmt>, c: Context, p: Pos, loops: seq<LoopFrame>)
    requires RegularAll(ss, c)
    ensures Walk(ss, p, loops).gotos == []
    decreases SizeAll(ss), 1
  {
    if ss != [] {
      StepNoGotos(ss[0], c, p, loops);
      WalkNoGotos(ss[1..], c, Step(ss[0], p, loops).next, loops);
    }
  }

  lemma {:induction false} StepNoGotos(s: Stmt, c: Context, p: Pos, loops: seq<LoopFrame>)
    requires Regular(s, c)
    ensures Step(s, p, loops).gotos == []
    decreases Size(s), 0
  {
    match s
    case If(_, th, el) =>
      hide BranchStep;
      var join := p.counter + 1;
      BranchNoGotos(th, c.Within(), p.block, join, join, TrueBranch, loops);
      var t := BranchStep(th, p.block, join, join, TrueBranch, loops);
      BranchNoGotos(el, c.Within(), p.block, join, t.next.counter, FalseBranch, loops);
    case Loop(_, kind, b) =>
      hide LoopBodyStep;
      BranchNoGotos(b, InLoop, 0, p.counter + 1, p.counter + 2, if kind.Do? then Fallthrough else TrueBranch,
                    loops + [LoopFrame(p.counter + 1, p.counter + 2)]);
    case Compound(_, ss) =>
      hide Walk;
      WalkNoGotos(ss, c.Within(), Fresh(p.counter), loops);
      assert Step(s, p, loops) == CompoundStep(s, p, loops);
    case Switch(_, _) => if Braced(s.compound) { SwitchNoGotos(s, p, loops); }
    case _ =>
  }

  lemma {:induction false} SwitchNoGotos(s: Stmt, p: Pos, loops: seq<LoopFrame>)
    requires s.Switch? && Braced(s.compound) && RegularAll(Sequence(s.compound), AmongCases)
    ensures SwitchStep(s, p, loops).gotos == []
    decreases OptionSize(s.compound), 3
  {
    hide GroupsStep, CaseGroups, SwitchExits, RegularAll;
    GroupsAreRegular(Sequence(s.compound), AmongCases);
    GroupsNoGotos(CaseGroups(Sequence(s.compound)), p.block, p.counter + 1, SwitchLoops(loops, p), None);
  }

  lemma {:induction false} BranchNoGotos(b: Option<Stmt>, c: Context, branch: int, join: int, counter: nat,
                                         kind: EdgeKind, loops: seq<LoopFrame>)
    requires RegularAll(Sequence(b), c)
    ensures BranchStep(b, branch, join, counter, kind, loops).gotos == []
    ensures LoopBodyStep(b, join, counter, kind, loops).gotos == []
    decreases OptionSize(b), 2
  {
    if b.Some? {
      WalkNoGotos(Sequence(b), c, Fresh(counter), loops);
    }
  }

  lemma {:induction false} GroupsNoGotos(groups: seq<seq<Stmt>>, switchBlock: int, counter: nat, loops: seq<LoopFrame>,
                                         previous: Option<int>)
    requires forall g: seq<Stmt> :: g in groups ==> |g| > 0 && g[0].Case? && RegularAll(g, AmongCases)
    ensures GroupsStep(groups, switchBlock, counter, loops, previous).gotos == []
    decreases SizeGroups(groups), 2, |groups|
  {
    if groups != [] {
      hide Walk, RegularAll;
      GroupArcs(groups[0], switchBlock, counter, loops, previous);
      var f := GroupFrag(groups[0], switchBlock, counter, loops, previous);
      WalkNoGotos(groups[0], AmongCases, Fresh(counter), loops);
      GroupsNoGotos(groups[1..], switchBlock, f.next.counter, loops, Some(f.next.block));
      var rest := GroupsStep(groups[1..], switchBlock, f.next.counter, loops, Some(f.next.block));
      assert GroupsStep(groups, switchBlock, counter, loops, previous) == f.Then(rest);
    }
  }

  ghost predicate HasEdgeInto(edges: seq<Edge>, b: int)
  {
    exists e :: e in edges && e.target == b
  }

  /** A list that some run falls out of ends where it started or in a block
      that an edge leads to. */
  lemma {:induction false} NormalEndIsEntered(ss: seq<Stmt>, c: Context, t: seq<NodeId>, p: Pos, loops: seq<LoopFrame>)
    requires RegularAll(ss, c) && ExecutesAll(AsBuilt, ss, t, Normal)
    ensures var f := Walk(ss, p, loops);
            f.next.block == p.block || HasEdgeInto(f.edges, f.next.block)
    decreases |ss|
  {
    if ss != [] {
      hide Step, Executes, HasEdgeInto;
      var abrupt, k := SplitRun(AsBuilt, ss, t, Normal);
      var f := Step(ss[0], p, loops);
      NormalEndIsEntered(ss[1..], c, t[k..], f.next, loops);
      StepEndIsEntered(ss[0], c, t[..k], p, loops);
      var g := Walk(ss[1..], f.next, loops);
      EdgeIntoEither(f.edges, g.edges, g.next.block);
      assert Walk(ss, p, loops) == f.Then(g);
    }
  }

  lemma EdgeIntoEither(a: seq<Edge>, b: seq<Edge>, x: int)
    ensures HasEdgeInto(a, x) || HasEdgeInto(b, x) ==> HasEdgeInto(a + b, x)
  {
    if HasEdgeInto(a, x) {
      var e :| e in a && e.target == x;
      assert e in a + b;
    } else if HasEdgeInto(b, x) {
      var e :| e in b && e.target == x;
      assert e in a + b;
    }
  }

  lemma StepEndIsEntered(s: Stmt, c: Context, t: seq<NodeId>, p: Pos, loops: seq<LoopFrame>)
    requires Regular(s, c) && Executes(AsBuilt, s, t, Normal)
    ensures var f := Step(s, p, loops);
            f.next.block == p.block || HasEdgeInto(f.edges, f.next.block)
  {
    hide HasEdgeInto, IfStep, LoopStep, SwitchStep;
    match s
    case If(_, _, _) => IfEndIsEntered(s, p, loops);
    case Loop(_, _, _) => LoopEndIsEntered(s, p, loops);
    case Switch(_, _) => SwitchEndIsEntered(s, p, loops);
    case Label(_, _) => LabelEndIsEntered(s, p, loops);
    case _ =>
  }

  lemma LabelEndIsEntered(s: Stmt, p: Pos, loops: seq<LoopFrame>)
    requires s.Label?
    ensures var f := LabelStep(s.id, s.name, p); f.next.block == p.block || HasEdgeInto(f.edges, f.next.block)
  {
    var f := LabelStep(s.id, s.name, p);
    if p.offset > 0 {
      assert f.edges[0].target == f.next.block && f.edges[0] in f.edges;
    }
  }

  lemma IfEndIsEntered(s: Stmt, p: Pos, loops: seq<LoopFrame>)
    requires s.If?
    ensures var f := IfStep(s, p, loops); HasEdgeInto(f.edges, f.next.block) && f.next.offset == 0
  {
    hide BranchStep, HasEdgeInto;
    var join := p.counter + 1;
    var x := BranchStep(s.thenBranch, p.block, join, join, TrueBranch, loops);
    var y := BranchStep(s.elseBranch, p.block, join, x.next.counter, FalseBranch, loops);
    assert [] + x.edges == x.edges;
    assert IfStep(s, p, loops).edges == x.edges + y.edges;
    BranchEntersJoin(s.thenBranch, p.block, join, join, TrueBranch, loops);
    EdgeIntoEither(x.edges, y.edges, join);
  }

  lemma BranchEntersJoin(b: Option<Stmt>, branch: int, join: int, counter: nat, kind: EdgeKind, loops: seq<LoopFrame>)
    ensures HasEdgeInto(BranchStep(b, branch, join, counter, kind, loops).edges, join)
  {
    hide BuildSequence;
    var x := BranchStep(b, branch, join, counter, kind, loops);
    assert Last(x.edges).target == join && Last(x.edges) in x.edges;
  }

  lemma LoopEndIsEntered(s: Stmt, p: Pos, loops: seq<LoopFrame>)
    requires s.Loop?
    ensures var f := LoopStep(s, p, loops); HasEdgeInto(f.edges, f.next.block) && f.next.offset == 0
  {
    hide LoopBodyStep;
    var f := LoopStep(s, p, loops);
    assert Last(f.edges).target == f.next.block && Last(f.edges) in f.edges;
  }

  lemma SwitchEndIsEntered(s: Stmt, p: Pos, loops: seq<LoopFrame>)
    requires s.Switch?
    ensures var f := SwitchStep(s, p, loops); HasEdgeInto(f.edges, f.next.block) && f.next.offset == 0
  {
    hide GroupsStep, CaseGroups, HasDefault, SwitchExits, HasEdgeInto;
    var after := p.counter + 1;
    if Braced(s.compound) {
      var groups := CaseGroups(Sequence(s.compound));
      var f := GroupsStep(groups, p.block, after, SwitchLoops(loops, p), None);
      var exits := SwitchExits(p.block, after, groups, f.next.block);
      assert SwitchStep(s, p, loops) == SwitchShape(s.id, p, f, exits);
      assert SwitchShape(s.id, p, f, exits).edges == f.edges + exits;
      ExitsEnter(p.block, after, groups, f.next.block);
      EdgeIntoEither(f.edges, exits, after);
    } else {
      SkippedSwitch(s, p, loops);
    }
  }

  /** A `switch` without braces leads past its body. */
  lemma SkippedSwitch(s: Stmt, p: Pos, loops: seq<LoopFrame>)
    requires s.Switch? && !Braced(s.compound)
    ensures var f := SwitchStep(s, p, loops); HasEdgeInto(f.edges, f.next.block) && f.next.offset == 0
  {
    var e := Edge(p.block, p.counter + 1, Fallthrough);
    var f := SwitchStep(s, p, loops);
    assert f.edges == [e] && f.edges[0] == e;
  }

  lemma ExitsEnter(switchBlock: int, after: int, groups: seq<seq<Stmt>>, tail: int)
    requires forall g: seq<Stmt> :: g in groups ==> |g| > 0 && g[0].Case?
    ensures HasEdgeInto(SwitchExits(switchBlock, after, groups, tail), after)
  {
    var exits := SwitchExits(switchBlock, after, groups, tail);
    assert HasDefault([]) == false;
    assert exits[0].target == after && exits[0] in exits;
  }

  // ------------------------------------------------------------------
  // The built graph
  // ------------------------------------------------------------------

  /** What holds of the graph of a non-empty structured body: the body's own
      fragment is wired, the entry leads to it, and its end, when anything leads
      there, leads to the exit. */
  lemma RawGraphWired(body: seq<Stmt>)
    requires body != [] && RegularAll(body, AtTop)
    ensures var n, f := NetOf(RawGraph(body)), Walk(body, Fresh(0), []);
            && ExitIsFinal(n) && At(n, ENTRY) == [] && Targets(n, ENTRY, {1})
            && Wired(n, body, Fresh(0), [])
            && f.next.block > 0 && Leads(n, f.next, TailTargets(f))
  {
    var f := Walk(body, Fresh(0), []);
    var n := NetOf(RawGraph(body));
    assert n == Net(BlocksOf(f.next.counter, f.places), ArcsOf(AllEdges(f)));
    hide Walk, Wired, RawGraph, AllEdges, RegularAll;
    WalkConfined(body, Fresh(0), []);
    WalkNoGotos(body, AtTop, Fresh(0), []);
    RawHosts(f, n);
    WalkWired(n, body, AtTop, Fresh(0), []);
    RawEnds(f, n);
  }

  /** Where the end of the body leads. */
  ghost function TailTargets(f: Frag): set<int>
  {
    if f.next.block == 1 || HasEdgeInto(f.edges, f.next.block) then {EXIT} else {}
  }

  lemma RawEnds(f: Frag, n: Net)
    requires Confined(f, Fresh(0), []) && f.gotos == []
    requires n == Net(BlocksOf(f.next.counter, f.places), ArcsOf(AllEdges(f)))
    ensures ExitIsFinal(n) && At(n, ENTRY) == [] && Targets(n, ENTRY, {1})
    ensures Leads(n, f.next, TailTargets(f))
  {
    hide AllEdges, ArcsOf, BlockOrder;
    RawArcs(f);
    PlacedAtNowhere(f.places, ENTRY);
    PlacedAtNowhere(f.places, EXIT);
    forall x, y | (x, y) in ArcsOf(f.edges)
      ensures 0 < x && x != f.next.block
    {
      ConfinedArcs(f, Fresh(0), [], x, y);
    }
  }

  lemma RawArcs(f: Frag)
    requires Confined(f, Fresh(0), []) && f.gotos == []
    ensures ArcsOf(AllEdges(f)) == ArcsOf(f.edges) + {(ENTRY, 1)}
              + (if TailTargets(f) == {} then {} else {(f.next.block, EXIT)})
  {
    assert EXIT in {EXIT};
    var entry := Edge(ENTRY, 1, Fallthrough);
    var edges := f.edges + [entry];
    var implicit := ImplicitReturnEdges(edges, f.next.block);
    ImplicitReturnWhen(f, edges);
    assert AllEdges(f) == edges + implicit + [];
    assert edges + implicit + [] == edges + implicit;
    ArcsAppend(edges, implicit);
    ArcsAppend(f.edges, [entry]);
    ArcsOfOne(entry);
    if implicit != [] {
      ArcsOfOne(implicit[0]);
    }
  }

  /** The implicit return is there exactly when an edge leads to the tail. */
  lemma ImplicitReturnWhen(f: Frag, edges: seq<Edge>)
    requires Confined(f, Fresh(0), []) && edges == f.edges + [Edge(ENTRY, 1, Fallthrough)]
    ensures ImplicitReturnEdges(edges, f.next.block)
            == if f.next.block == 1 || HasEdgeInto(f.edges, f.next.block)
               then [Edge(f.next.block, EXIT, ImplicitReturn)] else []
  {
    var tail := f.next.block;
    var entry := Edge(ENTRY, 1, Fallthrough);
    var out, into := Successors(edges, tail), Predecessors(edges, tail);
    assert forall e :: e in edges ==> e in f.edges || e == entry;
    assert edges[|f.edges|] in edges;
    if HasEdgeInto(f.edges, tail) {
      var d :| d in f.edges && d.target == tail;
      assert d in edges;
    }
  }

  lemma RawHosts(f: Frag, n: Net)
    requires Confined(f, Fresh(0), []) && f.gotos == []
    requires n == Net(BlocksOf(f.next.counter, f.places), ArcsOf(AllEdges(f)))
    ensures HostsFrag(n, f, Fresh(0))
  {
    hide PlacedAt, AllEdges, HoldsFrom;
    RawArcs(f);
    forall b | InRegion(b, Fresh(0), f.next)
      ensures HoldsFrom(n, b, 0, PlacedAt(f.places, b), b == f.next.block)
    {
      HoldsItsOwn(n, b, b == f.next.block);
      assert At(n, b) == PlacedAt(f.places, b);
    }
  }

  lemma HoldsItsOwn(n: Net, b: int, open: bool)
    ensures HoldsFrom(n, b, 0, At(n, b), open)
  {
  }

  // ------------------------------------------------------------------
  // The theorem
  // ------------------------------------------------------------------

  lemma TraceIsRun(body: seq<Stmt>, p: seq<int>)
    requires body != [] && RegularAll(body, AtTop)
    requires WalkFromTo(RawGraph(body).Arcs(), p, ENTRY, EXIT)
    ensures CompleteRun(AsBuilt, body, Trace(NetOf(RawGraph(body)), p))
  {
    hide RawGraph, Walk, Wired, ExecutesAll, Follows, Trace, TailTargets, RegularAll;
    var n, f := NetOf(RawGraph(body)), Walk(body, Fresh(0), []);
    var t := Trace(n, p);
    RawGraphWired(body);
    WalkFollows(n, p, ENTRY);
    PassEnd(n, p, Pos(ENTRY, 0, 0), {1}, t);
    var k, o, q := PathToRun(n, body, Fresh(0), [], p[1..], t);
    if o == Normal {
      PassEnd(n, q, f.next, TailTargets(f), t[k..]);
      TailTargetsExit(f, q[1]);
      StopsAtExit(n, q[1..], t[k..]);
    }
    assert t[..k] == t;
  }

  lemma TailTargetsExit(f: Frag, y: int)
    requires y in TailTargets(f)
    ensures y == EXIT
  {
  }

  lemma RunIsTrace(body: seq<Stmt>, t: seq<NodeId>)
    requires body != [] && RegularAll(body, AtTop)
    requires CompleteRun(AsBuilt, body, t)
    ensures GraphTrace(RawGraph(body), t)
  {
    hide RawGraph, Walk, Wired, ExecutesAll, Follows, Trace, TailTargets, RegularAll, HasEdgeInto;
    var g := RawGraph(body);
    var n, f := NetOf(g), Walk(body, Fresh(0), []);
    RawGraphWired(body);
    var o := if ExecutesAll(AsBuilt, body, t, Normal) then Normal else Returned;
    var q := [];
    if o == Normal {
      EndLeadsOut(body, t, n);
      CrossEnd(n, [EXIT], f.next, EXIT, []);
      q := [f.next.block] + [EXIT];
    }
    var path := RunToPath(n, body, Fresh(0), [], t, o, q, []);
    assert t + [] == t;
    CrossEnd(n, path, Pos(ENTRY, 0, 0), 1, t);
    FollowsIsWalk(n, [ENTRY] + path, ENTRY, t);
  }

  lemma EndLeadsOut(body: seq<Stmt>, t: seq<NodeId>, n: Net)
    requires RegularAll(body, AtTop) && ExecutesAll(AsBuilt, body, t, Normal)
    requires ExitIsFinal(n) && Leads(n, Walk(body, Fresh(0), []).next, TailTargets(Walk(body, Fresh(0), [])))
    ensures (Walk(body, Fresh(0), []).next.block, EXIT) in n.arcs
    ensures Follows(n, [EXIT], EXIT, 0, [])
  {
    hide Walk;
    NormalEndIsEntered(body, AtTop, t, Fresh(0), []);
  }

  /** The graph as first built has exactly the runs of the builder's reading. */
  lemma RawGraphAsBuilt(body: seq<Stmt>, t: seq<NodeId>)
    requires RegularAll(body, AtTop)
    ensures CompleteRun(AsBuilt, body, t) <==> GraphTrace(RawGraph(body), t)
  {
    var g := RawGraph(body);
    if body == [] {
      var n := NetOf(g);
      assert g.edges[0] in g.edges;
      ArcsOfOne(g.edges[0]);
      assert WalkFromTo(g.Arcs(), [ENTRY, EXIT], ENTRY, EXIT);
      assert Leads(n, Pos(ENTRY, 0, 0), {EXIT}) && ExitIsFinal(n);
      forall p | WalkFromTo(g.Arcs(), p, ENTRY, EXIT)
        ensures Trace(n, p) == []
      {
        WalkFollows(n, p, ENTRY);
        PassEnd(n, p, Pos(ENTRY, 0, 0), {EXIT}, Trace(n, p));
        StopsAtExit(n, p[1..], Trace(n, p));
      }
    } else {
      if CompleteRun(AsBuilt, body, t) {
        RunIsTrace(body, t);
      }
      if GraphTrace(g, t) {
        var p :| WalkFromTo(g.Arcs(), p, ENTRY, EXIT) && Trace(NetOf(g), p) == t;
        TraceIsRun(body, p);
      }
    }
  }

  // ------------------------------------------------------------------
  // What the language says
  // ------------------------------------------------------------------

  /** The main result for the graph as first built. */
  lemma RawGraphExact(body: seq<Stmt>, t: seq<NodeId>)
    requires Faithful(body)
    ensures CompleteRun(InC, body, t) <==> GraphTrace(RawGraph(body), t)
  {
    hide RawGraph, GraphTrace, RegularAll, CleanAll, ExecutesAll;
    RawGraphAsBuilt(body, t);
    ReadingsAgreeOnAll(body, AtTop, t, Normal);
    ReadingsAgreeOnAll(body, AtTop, t, Returned);
  }

  /** With distinct nodes the check on the tree is exact: the paths are the runs
      of the language for every trace iff the body is faithful. */
  lemma FaithfulIsExact(body: seq<Stmt>)
    requires RegularAll(body, AtTop) && NoRepeats(NodesOf(body))
    ensures Faithful(body) <==> forall t :: CompleteRun(InC, body, t) <==> GraphTrace(RawGraph(body), t)
  {
    hide RawGraph, GraphTrace, RegularAll, CleanAll, CompleteRun;
    forall t
      ensures CompleteRun(AsBuilt, body, t) <==> GraphTrace(RawGraph(body), t)
    {
      RawGraphAsBuilt(body, t);
    }
    if Faithful(body) {
      forall t
        ensures CompleteRun(InC, body, t) <==> GraphTrace(RawGraph(body), t)
      {
        RawGraphExact(body, t);
      }
    }
    if forall t :: CompleteRun(InC, body, t) <==> GraphTrace(RawGraph(body), t) {
      AgreementMeansClean(body);
    }
  }
}
