/** Where statements end up: the builder places the nodes of a body in source
    order, each at most once, so no statement sits in two blocks. */
module CfgNodes {
  import opened Collections
  import opened Ast
  import opened Paths
  import opened CfgSpec
  import opened CfgWellFormed

  /** `a` is `b` with some elements left out. */
  ghost predicate Sub(a: seq<NodeId>, b: seq<NodeId>)
    decreases |b|
  {
    || a == []
    || (b != [] && ((a[0] == b[0] && Sub(a[1..], b[1..])) || Sub(a, b[1..])))
  }

  ghost predicate Ascending(s: seq<NodeId>)
  {
    forall i, j :: 0 <= i < j < |s| ==> s[i] < s[j]
  }

  lemma {:induction false} SubAppend(a: seq<NodeId>, b: seq<NodeId>, c: seq<NodeId>, d: seq<NodeId>)
    requires Sub(a, b) && Sub(c, d)
    ensures Sub(a + c, b + d)
    decreases |b|
  {
    if b == [] {
      assert a + c == c && b + d == d;
    } else {
      assert (b + d)[1..] == b[1..] + d;
      if a == [] {
        SubAppend(a, b[1..], c, d);
      } else if a[0] == b[0] && Sub(a[1..], b[1..]) {
        SubAppend(a[1..], b[1..], c, d);
        assert (a + c)[1..] == a[1..] + c;
      } else {
        SubAppend(a, b[1..], c, d);
      }
    }
  }

  lemma {:induction false} SubSelf(a: seq<NodeId>)
    ensures Sub(a, a)
  {
    if a != [] {
      SubSelf(a[1..]);
    }
  }

  lemma {:induction false} SubMember(a: seq<NodeId>, b: seq<NodeId>, x: NodeId)
    requires Sub(a, b) && x in a
    ensures x in b
    decreases |b|
  {
    if a[0] == b[0] && Sub(a[1..], b[1..]) {
      if x != a[0] {
        SubMember(a[1..], b[1..], x);
      }
    } else {
      SubMember(a, b[1..], x);
    }
  }

  lemma {:induction false} SubAscending(a: seq<NodeId>, b: seq<NodeId>)
    requires Sub(a, b) && Ascending(b)
    ensures Ascending(a)
    decreases |b|
  {
    if a != [] {
      if a[0] == b[0] && Sub(a[1..], b[1..]) {
        SubAscending(a[1..], b[1..]);
        forall j | 0 < j < |a|
          ensures a[0] < a[j]
        {
          assert a[j] == a[1..][j - 1];
          SubMember(a[1..], b[1..], a[j]);
        }
        forall i, j | 0 < i < j < |a|
          ensures a[i] < a[j]
        {
          assert a[i] == a[1..][i - 1] && a[j] == a[1..][j - 1];
        }
      } else {
        SubAscending(a, b[1..]);
      }
    }
  }

  lemma {:induction false} SubDistinct(a: seq<NodeId>, b: seq<NodeId>)
    requires Sub(a, b) && NoRepeats(b)
    ensures NoRepeats(a)
    decreases |b|
  {
    if a != [] {
      if a[0] == b[0] && Sub(a[1..], b[1..]) {
        SubDistinct(a[1..], b[1..]);
        forall j | 0 < j < |a|
          ensures a[0] != a[j]
        {
          assert a[j] == a[1..][j - 1];
          SubMember(a[1..], b[1..], a[j]);
        }
        forall i, j | 0 < i < j < |a|
          ensures a[i] != a[j]
        {
          assert a[i] == a[1..][i - 1] && a[j] == a[1..][j - 1];
        }
      } else {
        SubDistinct(a, b[1..]);
      }
    }
  }

  function Ids(places: seq<Place>): (ids: seq<NodeId>)
    ensures |ids| == |places|
    ensures forall i :: 0 <= i < |ids| ==> ids[i] == places[i].id
  {
    seq(|places|, i requires 0 <= i < |places| => places[i].id)
  }

  lemma IdsAppend(a: seq<Place>, b: seq<Place>)
    ensures Ids(a + b) == Ids(a) + Ids(b)
  {
  }

  lemma {:induction false} WalkPlaces(ss: seq<Stmt>, p: Pos, loops: seq<LoopFrame>)
    ensures Sub(Ids(Walk(ss, p, loops).places), NodesOf(ss))
    decreases SizeAll(ss), 1
  {
    if ss != [] {
      var f := Step(ss[0], p, loops);
      StepPlaces(ss[0], p, loops);
      WalkPlaces(ss[1..], f.next, loops);
      var g := Walk(ss[1..], f.next, loops);
      IdsAppend(f.places, g.places);
      SubAppend(Ids(f.places), Nodes(ss[0]), Ids(g.places), NodesOf(ss[1..]));
    }
  }

  lemma {:induction false} BranchPlaces(b: Option<Stmt>, branch: int, join: int, counter: nat, kind: EdgeKind,
                                        loops: seq<LoopFrame>)
    ensures Sub(Ids(BranchStep(b, branch, join, counter, kind, loops).places), NodesOf(Sequence(b)))
    ensures Sub(Ids(LoopBodyStep(b, branch, counter, kind, loops).places), NodesOf(Sequence(b)))
    decreases OptionSize(b), 2
  {
    if b.Some? {
      WalkPlaces(Sequence(b), Fresh(counter), loops);
    }
  }

  lemma {:induction false} StepPlaces(s: Stmt, p: Pos, loops: seq<LoopFrame>)
    ensures Sub(Ids(Step(s, p, loops).places), Nodes(s))
    decreases Size(s), 0
  {
    match s
    case Compound(_, ss) =>
      WalkPlaces(ss, Fresh(p.counter), loops);
      assert CompoundStep(s, p, loops).places == Walk(ss, Fresh(p.counter), loops).places;
    case If(_, _, _) => IfPlaces(s, p, loops);
    case Loop(_, _, _) => LoopPlaces(s, p, loops);
    case Switch(_, _) => SwitchPlaces(s, p, loops);
    case _ =>
      assert Ids(Step(s, p, loops).places) == [s.id];
      SubSelf([s.id]);
  }

  lemma {:induction false} IfPlaces(s: Stmt, p: Pos, loops: seq<LoopFrame>)
    requires s.If?
    ensures Sub(Ids(IfStep(s, p, loops).places), Nodes(s))
    decreases OptionSize(s.thenBranch) + OptionSize(s.elseBranch), 3
  {
    hide BranchStep;
    var join := p.counter + 1;
    var t := BranchStep(s.thenBranch, p.block, join, join, TrueBranch, loops);
    var e := BranchStep(s.elseBranch, p.block, join, t.next.counter, FalseBranch, loops);
    BranchPlaces(s.thenBranch, p.block, join, join, TrueBranch, loops);
    BranchPlaces(s.elseBranch, p.block, join, t.next.counter, FalseBranch, loops);
    var own := [Place(p.block, s.id)];
    IdsAppend(own, t.places);
    IdsAppend(own + t.places, e.places);
    SubSelf([s.id]);
    assert Ids(own) == [s.id];
    SubAppend([s.id], [s.id], Ids(t.places), NodesOf(Sequence(s.thenBranch)));
    SubAppend([s.id] + Ids(t.places), [s.id] + NodesOf(Sequence(s.thenBranch)),
              Ids(e.places), NodesOf(Sequence(s.elseBranch)));
  }

  lemma {:induction false} LoopPlaces(s: Stmt, p: Pos, loops: seq<LoopFrame>)
    requires s.Loop?
    ensures Sub(Ids(LoopStep(s, p, loops).places), Nodes(s))
    decreases OptionSize(s.body), 3
  {
    hide LoopBodyStep;
    var inner := loops + [LoopFrame(p.counter + 1, p.counter + 2)];
    var kind := if s.kind.Do? then Fallthrough else TrueBranch;
    var f := LoopBodyStep(s.body, p.counter + 1, p.counter + 2, kind, inner);
    BranchPlaces(s.body, p.counter + 1, 0, p.counter + 2, kind, inner);
    var own := [Place(p.counter + 1, s.id)];
    IdsAppend(own, f.places);
    SubSelf([s.id]);
    assert Ids(own) == [s.id];
    SubAppend([s.id], [s.id], Ids(f.places), NodesOf(Sequence(s.body)));
  }

  lemma {:induction false} SwitchPlaces(s: Stmt, p: Pos, loops: seq<LoopFrame>)
    requires s.Switch?
    ensures Sub(Ids(SwitchStep(s, p, loops).places), Nodes(s))
    decreases OptionSize(s.compound), 3
  {
    hide GroupsStep;
    var after := p.counter + 1;
    var inner := loops + [LoopFrame(p.block, after)];
    SubSelf([s.id]);
    var own := [Place(p.block, s.id)];
    assert Ids(own) == [s.id];
    if s.compound.Some? && s.compound.value.Compound? {
      var children := s.compound.value.children;
      assert SizeAll(children) < Size(s.compound.value);
      var f := GroupsStep(CaseGroups(children), p.block, after, inner, None);
      GroupsPlaces(children, p.block, after, inner, None);
      IdsAppend(own, f.places);
      SubAppend([s.id], [s.id], Ids(f.places), NodesOf(children));
    } else {
      SubAppend([s.id], [s.id], [], NodesOf(Sequence(s.compound)));
    }
  }

  lemma {:induction false} GroupsPlaces(ss: seq<Stmt>, switchBlock: int, counter: nat, loops: seq<LoopFrame>,
                                        previous: Option<int>)
    ensures Sub(Ids(GroupsStep(CaseGroups(ss), switchBlock, counter, loops, previous).places), NodesOf(ss))
    decreases SizeAll(ss), 2, |ss|
  {
    if ss != [] {
      if ss[0].Case? {
        var n := GroupLength(ss[1..]) + 1;
        var group, rest := ss[..n], ss[n..];
        assert ss == group + rest;
        SizeAllAppend(group, rest);
        NodesOfAppend(group, rest);
        var f := BuildSequence(group, counter, loops);
        WalkPlaces(group, Fresh(counter), loops);
        GroupsPlaces(rest, switchBlock, f.next.counter, loops, Some(f.next.block));
        assert ([group] + CaseGroups(rest))[1..] == CaseGroups(rest);
        var g := GroupsStep(CaseGroups(rest), switchBlock, f.next.counter, loops, Some(f.next.block));
        IdsAppend(f.places, g.places);
        SubAppend(Ids(f.places), NodesOf(group), Ids(g.places), NodesOf(rest));
      } else {
        GroupsPlaces(ss[1..], switchBlock, counter, loops, previous);
        var g := GroupsStep(CaseGroups(ss[1..]), switchBlock, counter, loops, previous);
        SubAppend([], Nodes(ss[0]), Ids(g.places), NodesOf(ss[1..]));
        assert [] + Ids(g.places) == Ids(g.places);
      }
    }
  }

  /** Every entry of a block comes from its own place in the placement order. */
  lemma {:induction false} PlacedAtSource(places: seq<Place>, b: int, i: nat) returns (k: nat)
    requires i < |PlacedAt(places, b)|
    ensures k < |places| && places[k].block == b && places[k].id == PlacedAt(places, b)[i]
    ensures |PlacedAt(places[..k], b)| == i
  {
    var here := if places[0].block == b then 1 else 0;
    if here == 1 && i == 0 {
      k := 0;
    } else {
      var j := PlacedAtSource(places[1..], b, i - here);
      k := j + 1;
      assert places[..k][1..] == places[1..][..j];
    }
  }

  lemma PlacedOnce(places: seq<Place>, b: int, i: nat, c: int, j: nat)
    requires NoRepeats(Ids(places))
    requires i < |PlacedAt(places, b)| && j < |PlacedAt(places, c)|
    requires PlacedAt(places, b)[i] == PlacedAt(places, c)[j]
    ensures b == c && i == j
  {
    var k := PlacedAtSource(places, b, i);
    var l := PlacedAtSource(places, c, j);
    assert Ids(places)[k] == Ids(places)[l];
  }

  /** Within a block, statements keep the order of the source. */
  lemma {:induction false} PlacedAtSub(places: seq<Place>, b: int)
    ensures Sub(PlacedAt(places, b), Ids(places))
  {
    if places != [] {
      PlacedAtSub(places[1..], b);
      var here := if places[0].block == b then [places[0].id] else [];
      assert (here + PlacedAt(places[1..], b))[|here|..] == PlacedAt(places[1..], b);
      assert Ids(places)[1..] == Ids(places[1..]);
    }
  }

  // ------------------------------------------------------------------
  // Well-formedness of the whole graph
  // ------------------------------------------------------------------

  ghost predicate WellFormed(g: Cfg)
  {
    && ENTRY in g.blocks && EXIT in g.blocks
    && (forall e :: e in g.edges ==> e.source in g.blocks && e.target in g.blocks)
    && (forall e :: e in g.edges ==> e.target != ENTRY && e.source != EXIT)
    && (forall b :: b in g.order <==> b in g.blocks)
    && (forall i, j :: 0 <= i < j < |g.order| ==> g.order[i] != g.order[j])
    && g.blocks[ENTRY] == [] && g.blocks[EXIT] == []
  }

  ghost predicate StatementsOnce(g: Cfg)
  {
    forall b, i, c, j ::
      (b in g.blocks && 0 <= i < |g.blocks[b]| && c in g.blocks && 0 <= j < |g.blocks[c]|
       && g.blocks[b][i] == g.blocks[c][j]) ==> b == c && i == j
  }

  lemma {:induction false} LabelTargetDefined(labels: seq<LabelDef>, name: string)
    ensures var t := LabelTarget(labels, name);
            t.Some? ==> LabelDef(name, t.value) in labels
  {
    if labels != [] && Last(labels).name != name {
      LabelTargetDefined(labels[..|labels| - 1], name);
    }
  }

  lemma {:induction false} GotoEdgesJoin(gotos: seq<PendingGoto>, labels: seq<LabelDef>, counter: nat)
    requires forall g :: g in gotos ==> 0 < g.block <= counter
    requires forall l :: l in labels ==> 0 < l.block <= counter
    ensures forall e :: e in GotoEdges(gotos, labels) ==>
              0 < e.source <= counter && (e.target == EXIT || 0 < e.target <= counter)
  {
    if gotos != [] {
      LabelTargetDefined(labels, gotos[0].name);
      GotoEdgesJoin(gotos[1..], labels, counter);
    }
  }

  lemma AllEdgesJoin(f: Frag)
    requires Confined(f, Fresh(0), [])
    ensures forall e :: e in AllEdges(f) ==>
              && (e.source == ENTRY || 0 < e.source <= f.next.counter)
              && (e.target == EXIT || 0 < e.target <= f.next.counter)
  {
    hide GotoEdges, ImplicitReturnEdges;
    var entry := Edge(ENTRY, 1, Fallthrough);
    var implicit := ImplicitReturnEdges(f.edges + [entry], f.next.block);
    var gotos := GotoEdges(f.gotos, f.labels);
    GotoEdgesJoin(f.gotos, f.labels, f.next.counter);
    ImplicitReturnJoins(f.edges + [entry], f.next.block);
    assert forall e :: e in AllEdges(f) <==> e in f.edges || e == entry || e in implicit || e in gotos;
  }

  lemma ImplicitReturnJoins(edges: seq<Edge>, tail: int)
    ensures forall e :: e in ImplicitReturnEdges(edges, tail) ==> e.source == tail && e.target == EXIT
  {
  }

  lemma BlockOrderLists(counter: nat)
    ensures forall b :: b in BlockOrder(counter) <==> b in BlockIds(counter)
    ensures forall i, j :: 0 <= i < j < |BlockOrder(counter)| ==> BlockOrder(counter)[i] != BlockOrder(counter)[j]
  {
  }

  /** Whatever the body, its graph is well formed, ... */
  lemma RawGraphWellFormed(body: seq<Stmt>)
    ensures WellFormed(RawGraph(body))
  {
    hide BlockOrder, BlockIds, BuildSequence, AllEdges;
    BlockOrderLists(0);
    if body != [] {
      var f := BuildSequence(body, 0, []);
      SequenceConfined(body, 0, []);
      AllEdgesJoin(f);
      BlockOrderLists(f.next.counter);
      PlacedAtNowhere(f.places, ENTRY);
      PlacedAtNowhere(f.places, EXIT);
    }
  }

  /** ... and when its nodes are distinct, every statement sits in at most one
      place of one block. */
  lemma RawGraphStatementsOnce(body: seq<Stmt>)
    requires NoRepeats(NodesOf(body))
    ensures StatementsOnce(RawGraph(body))
  {
    var g := RawGraph(body);
    var f := BuildSequence(body, 0, []);
    hide BuildSequence, AllEdges;
    WalkPlaces(body, Fresh(0), []);
    if body != [] {
      SubDistinct(Ids(f.places), NodesOf(body));
      forall b, i, c, j | b in g.blocks && 0 <= i < |g.blocks[b]| && c in g.blocks && 0 <= j < |g.blocks[c]|
                          && g.blocks[b][i] == g.blocks[c][j]
        ensures b == c && i == j
      {
        PlacedOnce(f.places, b, i, c, j);
      }
    }
  }

  /** Statements of one block keep the order of the source. */
  lemma RawGraphOrdered(body: seq<Stmt>, b: int)
    requires Ascending(NodesOf(body)) && b in RawGraph(body).blocks
    ensures Ascending(RawGraph(body).blocks[b])
  {
    if body != [] {
      var f := BuildSequence(body, 0, []);
      WalkPlaces(body, Fresh(0), []);
      SubAscending(Ids(f.places), NodesOf(body));
      PlacedAtSub(f.places, b);
      SubAscending(PlacedAt(f.places, b), Ids(f.places));
    }
  }
}
