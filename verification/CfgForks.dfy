/** Where the graph forks: at most one true edge and one false edge leave a
    block, and what the edges of a whole body, before pruning and after, show of
    the choices in its tree. */
module CfgForks {
  import opened Collections
  import opened Ast
  import opened Runs
  import opened Paths
  import opened CfgSpec
  import opened CfgWellFormed
  import opened CfgNodes
  import opened CfgContinues
  import opened CfgPrune
  import opened CfgEdges
  import opened CfgTails
  import opened CfgBranches

  // ----- One edge for each way -----

  predicate Unbranched(ks: seq<EdgeKind>)
  {
    TrueBranch !in ks && FalseBranch !in ks
  }

  /** At most one true edge and at most one false edge. */
  ghost predicate OneEach(ks: seq<EdgeKind>)
  {
    forall i, j :: 0 <= i < j < |ks| && ks[i] == ks[j] ==> ks[i] != TrueBranch && ks[i] != FalseBranch
  }

  lemma OneEachAppend(a: seq<EdgeKind>, b: seq<EdgeKind>)
    requires OneEach(a) && OneEach(b) && (Unbranched(a) || Unbranched(b))
    ensures OneEach(a + b)
  {
    forall i, j | 0 <= i < j < |a + b| && (a + b)[i] == (a + b)[j]
      ensures (a + b)[i] != TrueBranch && (a + b)[i] != FalseBranch
    {
      if i < |a| <= j {
        assert (a + b)[i] in a && b[j - |a|] in b;
      }
    }
  }

  lemma OutKindsCons(e: Edge, edges: seq<Edge>, x: int)
    ensures OutKinds([e] + edges, x) == (if e.source == x then [e.kind] else []) + OutKinds(edges, x)
  {
    assert ([e] + edges)[1..] == edges;
  }

  lemma {:induction false} OutKindsAppend(a: seq<Edge>, b: seq<Edge>, x: int)
    ensures OutKinds(a + b, x) == OutKinds(a, x) + OutKinds(b, x)
  {
    if a == [] {
      assert a + b == b;
    } else {
      hide OutKinds;
      var rest := a[1..];
      assert a == [a[0]] + rest && a + b == [a[0]] + (rest + b);
      OutKindsAppend(rest, b, x);
      OutKindsCons(a[0], rest + b, x);
      OutKindsCons(a[0], rest, x);
    }
  }

  lemma {:induction false} OutKindsNowhere(edges: seq<Edge>, x: int)
    requires forall e :: e in edges ==> e.source != x
    ensures OutKinds(edges, x) == []
  {
    if edges != [] {
      OutKindsNowhere(edges[1..], x);
    }
  }

  lemma {:induction false} OutKindsUnbranched(edges: seq<Edge>, x: int)
    requires forall e :: e in edges ==> e.kind != TrueBranch && e.kind != FalseBranch
    ensures Unbranched(OutKinds(edges, x))
  {
    if edges != [] {
      OutKindsUnbranched(edges[1..], x);
    }
  }

  ghost predicate Unique(edges: seq<Edge>)
  {
    forall x :: OneEach(OutKinds(edges, x))
  }

  /** Where both lists have edges, those of one are plain. */
  lemma UniqueAppend(a: seq<Edge>, b: seq<Edge>)
    requires Unique(a) && Unique(b)
    requires forall x :: Unbranched(OutKinds(a, x)) || Unbranched(OutKinds(b, x))
    ensures Unique(a + b)
  {
    hide OutKinds, OneEach, Unbranched;
    forall x
      ensures OneEach(OutKinds(a + b, x))
    {
      OutKindsAppend(a, b, x);
      OneEachAppend(OutKinds(a, x), OutKinds(b, x));
    }
  }

  ghost predicate Source(edges: seq<Edge>, x: int)
  {
    exists e :: e in edges && e.source == x
  }

  lemma UniqueApart(a: seq<Edge>, b: seq<Edge>)
    requires Unique(a) && Unique(b) && forall x :: Source(a, x) && Source(b, x) ==> Unbranched(OutKinds(a, x)) || Unbranched(OutKinds(b, x))
    ensures Unique(a + b)
  {
    hide OutKinds, OneEach;
    forall x
      ensures Unbranched(OutKinds(a, x)) || Unbranched(OutKinds(b, x))
    {
      if !Source(a, x) {
        OutKindsNowhere(a, x);
      } else if !Source(b, x) {
        OutKindsNowhere(b, x);
      }
    }
    UniqueAppend(a, b);
  }

  lemma UniqueUnbranched(edges: seq<Edge>)
    requires forall e :: e in edges ==> e.kind != TrueBranch && e.kind != FalseBranch
    ensures Unique(edges) && forall x :: Unbranched(OutKinds(edges, x))
  {
    forall x
      ensures Unbranched(OutKinds(edges, x)) && OneEach(OutKinds(edges, x))
    {
      OutKindsUnbranched(edges, x);
      UnbranchedIsOneEach(OutKinds(edges, x));
    }
  }

  lemma UnbranchedIsOneEach(ks: seq<EdgeKind>)
    requires Unbranched(ks)
    ensures OneEach(ks)
  {
    forall i | 0 <= i < |ks|
      ensures ks[i] != TrueBranch && ks[i] != FalseBranch
    {
      assert ks[i] in ks;
    }
  }

  lemma UniqueOne(e: Edge)
    ensures Unique([e])
  {
    forall x
      ensures OneEach(OutKinds([e], x))
    {
      assert OutKinds([e], x) == if e.source == x then [e.kind] else [];
    }
  }

  lemma {:induction false} WalkUnique(ss: seq<Stmt>, p: Pos, loops: seq<LoopFrame>)
    requires Placed(p)
    ensures Unique(Walk(ss, p, loops).edges)
    decreases SizeAll(ss), 1
  {
    if ss == [] {
      UniqueUnbranched([]);
    } else {
      hide Step, Unique, Walk;
      var f := Step(ss[0], p, loops);
      var g := Walk(ss[1..], f.next, loops);
      WalkIs(ss, p, loops);
      StepConfined(ss[0], p, loops);
      WalkConfined(ss[1..], f.next, loops);
      StepUnique(ss[0], p, loops);
      WalkUnique(ss[1..], f.next, loops);
      UniqueApart(f.edges, g.edges);
    }
  }

  lemma {:induction false} SequenceUnique(ss: seq<Stmt>, counter: nat, loops: seq<LoopFrame>)
    ensures Unique(BuildSequence(ss, counter, loops).edges)
    decreases SizeAll(ss), 2
  {
    hide Walk, Unique;
    WalkUnique(ss, Fresh(counter), loops);
  }

  lemma {:induction false} StepUnique(s: Stmt, p: Pos, loops: seq<LoopFrame>)
    requires Placed(p)
    ensures Unique(Step(s, p, loops).edges)
    decreases Size(s), 0
  {
    hide BuildSequence, IfStep, LoopStep, SwitchStep, Unique;
    match s
    case Compound(_, ss) =>
      SequenceUnique(ss, p.counter, loops);
      UniqueUnbranched([Edge(p.block, p.counter + 1, Fallthrough)]);
      UniqueAppend(BuildSequence(ss, p.counter, loops).edges, [Edge(p.block, p.counter + 1, Fallthrough)]);
      assert Step(s, p, loops).edges == BuildSequence(ss, p.counter, loops).edges + [Edge(p.block, p.counter + 1, Fallthrough)];
    case If(_, _, _) => IfUnique(s, p, loops);
    case Loop(_, _, _) => LoopUnique(s, p, loops);
    case Switch(_, _) => SwitchUnique(s, p, loops);
    case _ => UniqueUnbranched(Step(s, p, loops).edges);
  }

  /** A branch or a loop body; out of its hub it has one edge. */
  lemma {:induction false} BodyUnique(b: Option<Stmt>, hub: int, meet: int, counter: nat, kind: EdgeKind, out: EdgeKind,
                                      loops: seq<LoopFrame>, edges: seq<Edge>)
    requires hub <= counter && out != TrueBranch && out != FalseBranch
    requires var f := BuildSequence(Sequence(b), counter, loops);
      edges == if b.None? then [Edge(hub, meet, kind)]
               else f.edges + [Edge(hub, counter + 1, kind), Edge(f.next.block, meet, out)]
    ensures Unique(edges) && OutKinds(edges, hub) == [kind]
    decreases OptionSize(b), 3
  {
    hide BuildSequence, Unique, Unbranched, OneEach;
    UniqueOne(Edge(hub, meet, kind));
    if b.Some? {
      var f := BuildSequence(Sequence(b), counter, loops);
      var enter, leave := Edge(hub, counter + 1, kind), Edge(f.next.block, meet, out);
      SequenceConfined(Sequence(b), counter, loops);
      SequenceUnique(Sequence(b), counter, loops);
      UniqueOne(enter);
      UniqueUnbranched([leave]);
      UniqueApart(f.edges, [enter]);
      UniqueAppend(f.edges + [enter], [leave]);
      assert edges == f.edges + [enter] + [leave];
      OutKindsNowhere(f.edges, hub);
      OutKindsAppend(f.edges + [enter], [leave], hub);
      OutKindsAppend(f.edges, [enter], hub);
      assert f.next.block != hub;
    }
  }

  lemma {:induction false} IfUnique(s: Stmt, p: Pos, loops: seq<LoopFrame>)
    requires s.If? && Placed(p)
    ensures Unique(IfStep(s, p, loops).edges)
    decreases OptionSize(s.thenBranch) + OptionSize(s.elseBranch), 5
  {
    hide BranchStep, Unique, Attached;
    var join := p.counter + 1;
    var t := BranchStep(s.thenBranch, p.block, join, join, TrueBranch, loops);
    var middle := t.next.counter;
    var e := BranchStep(s.elseBranch, p.block, join, middle, FalseBranch, loops);
    BranchAttached(s.thenBranch, p.block, join, join, TrueBranch, loops);
    BranchAttached(s.elseBranch, p.block, join, middle, FalseBranch, loops);
    Counters(t, e, {p.block}, {join}, join, loops);
    BranchUnique(s.thenBranch, p.block, join, join, TrueBranch, loops);
    BranchUnique(s.elseBranch, p.block, join, middle, FalseBranch, loops);
    assert IfStep(s, p, loops).edges == t.edges + e.edges by {
      assert [] + t.edges == t.edges;
    }
    SidesApart(t, e, p.block, join, loops);
  }

  lemma SidesApart(t: Frag, e: Frag, hub: int, join: nat, loops: seq<LoopFrame>)
    requires hub <= join && Attached(t, {hub}, {join}, join, loops) && Attached(e, {hub}, {join}, t.next.counter, loops)
    requires Unique(t.edges) && Unique(e.edges)
    requires OutKinds(t.edges, hub) == [TrueBranch] && OutKinds(e.edges, hub) == [FalseBranch]
    ensures Unique(t.edges + e.edges)
  {
    hide OutKinds;
    forall x
      ensures OneEach(OutKinds(t.edges + e.edges, x))
    {
      OutKindsAppend(t.edges, e.edges, x);
      if x != hub {
        if !Source(t.edges, x) {
          OutKindsNowhere(t.edges, x);
        } else {
          OutKindsNowhere(e.edges, x);
        }
        OneEachAppend(OutKinds(t.edges, x), OutKinds(e.edges, x));
      }
    }
  }

  lemma {:induction false} BranchUnique(b: Option<Stmt>, hub: int, meet: int, counter: nat, kind: EdgeKind, loops: seq<LoopFrame>)
    requires hub <= counter
    ensures var edges := BranchStep(b, hub, meet, counter, kind, loops).edges; Unique(edges) && OutKinds(edges, hub) == [kind]
    decreases OptionSize(b), 4
  {
    hide BuildSequence, Unique, OutKinds;
    assert [] + [Edge(hub, meet, kind)] == [Edge(hub, meet, kind)];
    BodyUnique(b, hub, meet, counter, kind, Fallthrough, loops, BranchStep(b, hub, meet, counter, kind, loops).edges);
  }

  lemma {:induction false} LoopUnique(s: Stmt, p: Pos, loops: seq<LoopFrame>)
    requires s.Loop? && Placed(p)
    ensures Unique(LoopStep(s, p, loops).edges)
    decreases OptionSize(s.body), 5
  {
    hide LoopBodyStep, Unique, Attached, OutKinds, OneEach;
    var header, after := p.counter + 1, p.counter + 2;
    var inner := loops + [LoopFrame(header, after)];
    var kind := if s.kind.Do? then Fallthrough else TrueBranch;
    var f := LoopBodyStep(s.body, header, after, kind, inner);
    var enter, leave := Edge(p.block, header, Fallthrough), Edge(header, after, FalseBranch);
    LoopBodyUnique(s.body, header, after, kind, inner);
    UniqueUnbranched([enter]);
    UniqueAppend([enter], f.edges);
    assert LoopStep(s, p, loops).edges == [enter] + f.edges + [leave];
    HeaderApart(p, header, after, kind, f.edges);
  }

  lemma HeaderApart(p: Pos, header: int, after: int, kind: EdgeKind, edges: seq<Edge>)
    requires Placed(p) && header == p.counter + 1 && Unique([Edge(p.block, header, Fallthrough)] + edges) && kind != FalseBranch
    requires OutKinds(edges, header) == [kind] || OutKinds(edges, header) == []
    ensures Unique([Edge(p.block, header, Fallthrough)] + edges + [Edge(header, after, FalseBranch)])
  {
    hide OutKinds;
    var enter, leave := Edge(p.block, header, Fallthrough), Edge(header, after, FalseBranch);
    forall x
      ensures OneEach(OutKinds([enter] + edges + [leave], x))
    {
      OutKindsAppend([enter] + edges, [leave], x);
      OutKindsAppend([enter], edges, x);
      KindOfOne(enter, x);
      KindOfOne(leave, x);
      if x != header {
        assert OutKinds([enter] + edges, x) + [] == OutKinds([enter] + edges, x);
      }
    }
  }

  lemma KindOfOne(e: Edge, x: int)
    ensures OutKinds([e], x) == if e.source == x then [e.kind] else []
  {
  }

  lemma {:induction false} LoopBodyUnique(b: Option<Stmt>, header: int, counter: nat, kind: EdgeKind, loops: seq<LoopFrame>)
    requires header <= counter
    ensures var edges := LoopBodyStep(b, header, counter, kind, loops).edges;
      Unique(edges) && (OutKinds(edges, header) == [kind] || OutKinds(edges, header) == [])
    decreases OptionSize(b), 4
  {
    hide BuildSequence, Unique;
    if b.None? {
      UniqueUnbranched([]);
    } else {
      BodyUnique(b, header, header, counter, kind, LoopBack, loops, LoopBodyStep(b, header, counter, kind, loops).edges);
    }
  }

  lemma {:induction false} SwitchUnique(s: Stmt, p: Pos, loops: seq<LoopFrame>)
    requires s.Switch? && Placed(p)
    ensures Unique(SwitchStep(s, p, loops).edges)
    decreases OptionSize(s.compound), 6
  {
    hide GroupsStep, Unique, SwitchExits, CaseGroups;
    var after := p.counter + 1;
    if Braced(s.compound) {
      var groups := CaseGroups(s.compound.value.children);
      assert SizeGroups(groups) < Size(s.compound.value);
      var inner := loops + [LoopFrame(p.block, after)];
      var f := GroupsStep(groups, p.block, after, inner, None);
      var exits := SwitchExits(p.block, after, groups, f.next.block);
      GroupsUnique(groups, p.block, after, inner, None);
      ExitsUnbranched(groups, p.block, after, f.next.block);
      UniqueAppend(f.edges, exits);
      assert SwitchStep(s, p, loops).edges == f.edges + exits by {
        assert [] + f.edges == f.edges;
      }
    } else {
      UniqueUnbranched(SwitchStep(s, p, loops).edges);
    }
  }

  lemma ExitsUnbranched(groups: seq<seq<Stmt>>, switchBlock: int, after: int, tail: int)
    requires forall g: seq<Stmt> :: g in groups ==> |g| > 0 && g[0].Case?
    ensures var exits := SwitchExits(switchBlock, after, groups, tail); Unique(exits) && forall x :: Unbranched(OutKinds(exits, x))
  {
    hide HasDefault, Unique, Unbranched, OutKinds;
    UniqueUnbranched(SwitchExits(switchBlock, after, groups, tail));
  }

  lemma {:induction false} GroupsUnique(groups: seq<seq<Stmt>>, switchBlock: int, counter: nat, loops: seq<LoopFrame>,
                                        previous: Option<int>)
    requires forall g: seq<Stmt> :: g in groups ==> |g| > 0 && g[0].Case?
    requires switchBlock <= counter && (previous.Some? ==> previous.value <= counter)
    ensures var edges := GroupsStep(groups, switchBlock, counter, loops, previous).edges;
      Unique(edges) && Unbranched(OutKinds(edges, switchBlock)) && (previous.Some? ==> Unbranched(OutKinds(edges, previous.value)))
    decreases SizeGroups(groups), 4, |groups|
  {
    if groups == [] {
      UniqueUnbranched([]);
    } else {
      hide GroupFrag, Unique, Attached, Unbranched;
      var f := GroupFrag(groups[0], switchBlock, counter, loops, previous);
      var g := GroupsStep(groups[1..], switchBlock, f.next.counter, loops, Some(f.next.block));
      GroupEnds(groups[0], switchBlock, counter, loops, previous);
      GroupUnique(groups[0], switchBlock, counter, loops, previous);
      GroupsUnique(groups[1..], switchBlock, f.next.counter, loops, Some(f.next.block));
      GroupsMeet(groups, f, g, switchBlock, previous, counter, loops);
      GroupsJoin(f, g, switchBlock, previous, counter, loops);
    }
  }

  lemma GroupsJoin(f: Frag, g: Frag, switchBlock: int, previous: Option<int>, counter: nat, loops: seq<LoopFrame>)
    requires GroupMet(f, g, switchBlock, previous, counter, loops) && counter < f.next.block <= f.next.counter
    requires switchBlock <= counter && (previous.Some? ==> previous.value <= counter)
    requires Unique(f.edges) && Unbranched(OutKinds(f.edges, switchBlock)) && (previous.Some? ==> Unbranched(OutKinds(f.edges, previous.value)))
    requires Unique(g.edges) && Unbranched(OutKinds(g.edges, switchBlock)) && Unbranched(OutKinds(g.edges, f.next.block))
    ensures Unique(f.edges + g.edges) && Unbranched(OutKinds(f.edges + g.edges, switchBlock))
    ensures previous.Some? ==> Unbranched(OutKinds(f.edges + g.edges, previous.value))
  {
    hide OutKinds, Unique;
    UniqueApart(f.edges, g.edges);
    OutKindsAppend(f.edges, g.edges, switchBlock);
    if previous.Some? {
      OutKindsAppend(f.edges, g.edges, previous.value);
      if previous.value != switchBlock {
        OutKindsNowhere(g.edges, previous.value);
      }
    }
  }

  lemma {:induction false} GroupUnique(group: seq<Stmt>, switchBlock: int, counter: nat, loops: seq<LoopFrame>, previous: Option<int>)
    requires |group| > 0 && group[0].Case? && switchBlock <= counter && (previous.Some? ==> previous.value <= counter)
    ensures var edges := GroupFrag(group, switchBlock, counter, loops, previous).edges;
      Unique(edges) && Unbranched(OutKinds(edges, switchBlock)) && (previous.Some? ==> Unbranched(OutKinds(edges, previous.value)))
    decreases SizeAll(group), 3
  {
    hide BuildSequence, Unique, OutKinds;
    var f := BuildSequence(group, counter, loops);
    var more := [Edge(switchBlock, counter + 1, if group[0].isDefault then DefaultEdge else CaseEdge)]
      + if previous.Some? then [Edge(previous.value, counter + 1, SwitchFallthrough)] else [];
    SequenceConfined(group, counter, loops);
    SequenceUnique(group, counter, loops);
    UniqueUnbranched(more);
    UniqueAppend(f.edges, more);
    OutKindsNowhere(f.edges, switchBlock);
    OutKindsAppend(f.edges, more, switchBlock);
    if previous.Some? {
      OutKindsNowhere(f.edges, previous.value);
      OutKindsAppend(f.edges, more, previous.value);
    }
  }

  // ----- The whole graph -----

  /** From block `y` the walk passes empty blocks until it comes to node `x`. */
  ghost predicate ComesTo(g: Cfg, w: seq<int>, y: int, x: NodeId)
  {
    && IsWalk(g.Arcs(), w) && w[0] == y
    && (forall i :: 0 <= i < |w| - 1 ==> w[i] in g.blocks && g.blocks[w[i]] == [])
    && Last(w) in g.blocks && g.blocks[Last(w)] != [] && g.blocks[Last(w)][0] == x
  }

  /** An edge of that kind leaves the block of the deciding node, and the node
      first met behind it is the one that follows. */
  ghost predicate Shows(g: Cfg, c: Choice)
  {
    exists e: Edge, w ::
      e in g.edges && e.kind == c.kind && e.source in g.blocks && c.at in g.blocks[e.source]
      && ComesTo(g, w, e.target, c.first)
  }

  /** All choices of the body, and no block has two true edges or two false ones. */
  ghost predicate BranchesShow(body: seq<Stmt>, g: Cfg)
  {
    && (forall c :: c in ChoicesAll(body) ==> Shows(g, c))
    && forall b :: b in g.blocks ==> OneEach(OutKinds(g.edges, b))
  }

  lemma RawShows(body: seq<Stmt>, c: Choice)
    requires c in ChoicesAll(body)
    ensures Shows(RawGraph(body), c)
  {
    hide RawGraph, BuildSequence, PlacedAt, ChoicesAll, GotoEdges;
    NoChoices();
    var f, g := BuildSequence(body, 0, []), RawGraph(body);
    SequenceTakes(body, 0, []);
    SequenceConfinedBody(body, f);
    RawGraphBlocks(body);
    var source :| Place(source, c.at) in f.places && Aims(f, 0, source, c.kind, c.first);
    var w :| Meets(f.edges, f.places, w, c.first) && Within(w, 0, f) && Edge(source, w[0], c.kind) in f.edges;
    forall e | e in f.edges
      ensures e in g.edges
    {
      RawEdges(body, f, e);
    }
    SubWalk(f.edges, g.edges, w);
    forall b | b in w
      ensures b in g.blocks && g.blocks[b] == PlacedAt(f.places, b)
    {
      BlockThere(f, b);
    }
    assert Last(w) in w;
    PlacedIn(f.places, source, c.at);
    BlockThere(f, source);
    assert forall i :: 0 <= i < |w| - 1 ==> w[i] in w;
    assert ComesTo(g, w, w[0], c.first);
    var e := Edge(source, w[0], c.kind);
    assert e in g.edges && e.source in g.blocks && c.at in g.blocks[e.source];
  }

  lemma RawOneEach(body: seq<Stmt>, b: int)
    ensures OneEach(OutKinds(RawGraph(body).edges, b))
  {
    hide BuildSequence, GotoEdges, Unique, OutKinds, OneEach, ImplicitReturnEdges;
    if body == [] {
      UniqueOfEntry(EXIT, b);
    } else {
      var f := BuildSequence(body, 0, []);
      SequenceUnique(body, 0, []);
      var entry := [Edge(ENTRY, 1, Fallthrough)];
      var implicit, gotos := ImplicitReturnEdges(f.edges + entry, f.next.block), GotoEdges(f.gotos, f.labels);
      GotoEdgesAre(f.gotos, f.labels);
      ImplicitIs(f.edges + entry, f.next.block);
      UniqueUnbranched(entry);
      UniqueUnbranched(implicit);
      UniqueUnbranched(gotos);
      UniqueAppend(f.edges, entry);
      UniqueAppend(f.edges + entry, implicit);
      UniqueAppend(f.edges + entry + implicit, gotos);
      assert RawGraph(body).edges == f.edges + entry + implicit + gotos;
      UniqueAt(RawGraph(body).edges, b);
    }
  }

  lemma ImplicitIs(edges: seq<Edge>, tail: int)
    ensures forall e :: e in ImplicitReturnEdges(edges, tail) ==> e.kind == ImplicitReturn
  {
  }

  lemma UniqueAt(edges: seq<Edge>, b: int)
    requires Unique(edges)
    ensures OneEach(OutKinds(edges, b))
  {
  }

  lemma UniqueOfEntry(target: int, b: int)
    ensures OneEach(OutKinds([Edge(ENTRY, target, Fallthrough)], b))
  {
    UniqueOne(Edge(ENTRY, target, Fallthrough));
  }

  /** Collapsing a block leaves it out of every walk. */
  lemma CollapseShows(g: Cfg, h: Cfg, c: Choice)
    requires CollapseStep(g, h) && Shows(g, c)
    ensures Shows(h, c)
  {
    hide Collapsible, Collapse;
    var b :| Collapsible(g, b) && h == Collapse(g, b);
    var e: Edge, w :| e in g.edges && e.kind == c.kind && e.source in g.blocks && c.at in g.blocks[e.source]
      && ComesTo(g, w, e.target, c.first);
    CollapseBypasses(g, b);
    CollapseKeeps(g, b);
    var d := CollapsedChoice(g, b, e);
    EraseWalk(g.Arcs(), h.Arcs(), b, w);
    EraseEnds(w, b);
    EraseMembers(w, b);
    var v := Erase(w, b);
    if e.target == b {
      EraseFirst(g, b, d.target, w);
    }
    forall i | 0 <= i < |v| - 1
      ensures v[i] in h.blocks && h.blocks[v[i]] == []
    {
      EraseInner(w, b, i);
    }
    assert ComesTo(h, v, d.target, c.first);
  }

  lemma CollapseKeeps(g: Cfg, b: int)
    requires Collapsible(g, b)
    ensures b in g.blocks && g.blocks[b] == []
    ensures forall x :: x in g.blocks && x != b ==> x in Collapse(g, b).blocks && Collapse(g, b).blocks[x] == g.blocks[x]
  {
  }

  /** The edge, or the same edge moved on to where the block led. */
  lemma CollapsedChoice(g: Cfg, b: int, e: Edge) returns (d: Edge)
    requires Collapsible(g, b) && e in g.edges && e.source != b
    ensures d in Collapse(g, b).edges && d.source == e.source && d.kind == e.kind
    ensures if e.target == b then (b, d.target) in g.Arcs() else d.target == e.target
  {
    var out := Successors(g.edges, b);
    var t := out[0].target;
    assert out[0] in out;
    ArcOfEdge(g.edges, b, t);
    var moved := Retarget(g.edges, b, t);
    var i :| 0 <= i < |g.edges| && g.edges[i] == e;
    d := moved[i];
    assert d in moved;
  }

  lemma {:induction false} EraseMembers(w: seq<int>, b: int)
    ensures forall x :: x in Erase(w, b) <==> x in w && x != b
  {
    if w != [] {
      EraseMembers(w[..|w| - 1], b);
      assert w == w[..|w| - 1] + [w[|w| - 1]];
    }
  }

  /** What comes before the end of the shorter walk comes before the end. */
  lemma EraseInner(w: seq<int>, b: int, i: nat)
    requires w != [] && Last(w) != b && i < |Erase(w, b)| - 1
    ensures Erase(w, b)[i] != b && exists k :: 0 <= k < |w| - 1 && w[k] == Erase(w, b)[i]
  {
    var front := w[..|w| - 1];
    EraseMembers(front, b);
    assert Erase(w, b)[i] == Erase(front, b)[i] && Erase(front, b)[i] in front;
    var k :| 0 <= k < |front| && front[k] == Erase(w, b)[i];
  }

  lemma {:induction false} EraseFirst(g: Cfg, b: int, t: int, w: seq<int>)
    requires Collapsible(g, b) && (b, t) in g.Arcs() && IsWalk(g.Arcs(), w) && w[0] == b && Last(w) != b
    ensures Erase(w, b) != [] && Erase(w, b)[0] == t
    decreases |w|
  {
    hide Collapsible;
    CollapsibleArc(g, b, t, w[1]);
    assert (w[0], w[1]) in g.Arcs();
    var rest := w[1..];
    EraseAppend([b], rest, b);
    assert w == [b] + rest && [b][..0] == [] && Erase([b], b) == [];
    CollapsibleKinds(g, b);
    EraseEnds(rest, b);
  }

  lemma CollapsibleArc(g: Cfg, b: int, t: int, y: int)
    requires Collapsible(g, b) && (b, t) in g.Arcs() && (b, y) in g.Arcs()
    ensures y == t
  {
    ArcOfEdge(g.edges, b, t);
    ArcOfEdge(g.edges, b, y);
    var out := Successors(g.edges, b);
    var d :| d in g.edges && d.source == b && d.target == t;
    var e :| e in g.edges && e.source == b && e.target == y;
    assert d in out && e in out;
  }

  lemma {:induction false} EraseAppend(a: seq<int>, c: seq<int>, b: int)
    ensures Erase(a + c, b) == Erase(a, b) + Erase(c, b)
    decreases |c|
  {
    if c == [] {
      assert a + c == a;
    } else {
      assert (a + c)[..|a + c| - 1] == a + c[..|c| - 1];
      EraseAppend(a, c[..|c| - 1], b);
    }
  }

  lemma {:induction false} PrunedShows(gs: seq<Cfg>, c: Choice)
    requires PruneSteps(gs) && Shows(gs[0], c)
    ensures Shows(Last(gs), c)
    decreases |gs|
  {
    if |gs| > 1 {
      hide Shows, CollapseStep;
      PruneStepsFront(gs);
      PrunedShows(gs[..|gs| - 1], c);
      CollapseShows(gs[|gs| - 2], gs[|gs| - 1], c);
    }
  }

  /** In every body, before pruning and after: each way to go on from an `if`, a
      loop or a `switch` has an edge of its kind that leads first to the node
      that C executes then, and no block has two true or two false edges. */
  lemma BranchesAreShown(body: seq<Stmt>, h: Cfg)
    requires PrunedTo(RawGraph(body), h)
    ensures BranchesShow(body, RawGraph(body)) && BranchesShow(body, h)
  {
    hide RawGraph, Shows, OutKinds, ChoicesAll, OneEach;
    var gs :| PruneSteps(gs) && gs[0] == RawGraph(body) && Last(gs) == h;
    forall c | c in ChoicesAll(body)
      ensures Shows(RawGraph(body), c) && Shows(h, c)
    {
      RawShows(body, c);
      PrunedShows(gs, c);
    }
    PrunedBlocks(gs);
    forall b
      ensures OneEach(OutKinds(RawGraph(body).edges, b))
      ensures b in h.blocks ==> OneEach(OutKinds(h.edges, b))
    {
      RawOneEach(body, b);
      if b in h.blocks {
        PruningIsExact(RawGraph(body), h, b);
      }
    }
  }
}
