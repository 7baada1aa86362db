/** Where `continue` goes. The builder sends it to the innermost enclosing loop
    or switch; the language means the innermost loop. */
module CfgContinues {
  import opened Collections
  import opened Ast
  import opened Paths
  import opened CfgSpec
  import opened CfgWellFormed
  import opened CfgPrune
  import opened CfgTails

  /** A `continue`: its block, where the builder sends it, the header of the
      innermost enclosing loop, and whether a switch stands between. */
  datatype ContinueSite = ContinueSite(block: int, id: NodeId, goes: Option<int>, header: Option<int>, inSwitch: bool)

  /** Where the builder sends a `continue`. */
  function Innermost(loops: seq<LoopFrame>): Option<int>
  {
    if loops == [] then None else Some(Last(loops).continueTarget)
  }

  /** All `continue` statements of a list built at `p`, with what is around it. */
  ghost function Sites(ss: seq<Stmt>, p: Pos, loops: seq<LoopFrame>, header: Option<int>, inSwitch: bool): set<ContinueSite>
    decreases SizeAll(ss), 1
  {
    if ss == [] then {}
    else SitesOf(ss[0], p, loops, header, inSwitch) + Sites(ss[1..], Step(ss[0], p, loops).next, loops, header, inSwitch)
  }

  ghost function SitesOf(s: Stmt, p: Pos, loops: seq<LoopFrame>, header: Option<int>, inSwitch: bool): set<ContinueSite>
    decreases Size(s), 0
  {
    match s
    case Continue(id) =>
      {ContinueSite(p.block, id, Innermost(loops), header, inSwitch)}
    case Compound(_, ss) => Sites(ss, Fresh(p.counter), loops, header, inSwitch)
    case If(_, th, el) =>
      var join := p.counter + 1;
      var middle := BranchStep(th, p.block, join, join, TrueBranch, loops).next.counter;
      BodySites(th, join, loops, header, inSwitch) + BodySites(el, middle, loops, header, inSwitch)
    case Loop(_, _, b) =>
      BodySites(b, p.counter + 2, loops + [LoopFrame(p.counter + 1, p.counter + 2)], Some(p.counter + 1), false)
    case Switch(_, _) => SwitchSites(s, p, loops, header)
    case _ => {}
  }

  ghost function BodySites(b: Option<Stmt>, counter: nat, loops: seq<LoopFrame>, header: Option<int>, inSwitch: bool): set<ContinueSite>
    decreases OptionSize(b), 2
  {
    if b.None? then {} else Sites(Sequence(b), Fresh(counter), loops, header, inSwitch)
  }

  ghost function SwitchSites(s: Stmt, p: Pos, loops: seq<LoopFrame>, header: Option<int>): set<ContinueSite>
    requires s.Switch?
    decreases OptionSize(s.compound), 5
  {
    if s.compound.Some? && s.compound.value.Compound? then
      var groups := CaseGroups(s.compound.value.children);
      assert SizeGroups(groups) < Size(s.compound.value);
      GroupSites(groups, p.block, p.counter + 1, loops + [LoopFrame(p.block, p.counter + 1)], None, header)
    else {}
  }

  ghost function GroupSites(groups: seq<seq<Stmt>>, switchBlock: int, counter: nat, loops: seq<LoopFrame>,
                            previous: Option<int>, header: Option<int>): set<ContinueSite>
    requires forall g: seq<Stmt> :: g in groups ==> |g| > 0 && g[0].Case?
    decreases SizeGroups(groups), 4, |groups|
  {
    if groups == [] then {} else
      var f := GroupFrag(groups[0], switchBlock, counter, loops, previous);
      Sites(groups[0], Fresh(counter), loops, header, true)
      + GroupSites(groups[1..], switchBlock, f.next.counter, loops, Some(f.next.block), header)
  }

  // ----- A site inside a fragment -----

  /** The only way out of the site's block is to where the site goes. */
  ghost predicate OutIs(f: Frag, s: ContinueSite)
  {
    && (forall e :: e in f.edges && e.source == s.block ==> s.goes == Some(e.target))
    && (s.goes.Some? ==> exists e :: e in f.edges && e.source == s.block)
    && (forall g :: g in f.gotos ==> g.block != s.block)
    && Place(s.block, s.id) in f.places
  }

  ghost predicate Fits(f: Frag, p: Pos, s: ContinueSite)
  {
    InRegion(s.block, p, f.next) && s.block != f.next.block && OutIs(f, s)
  }

  /** The same for a part built in blocks after `counter`. */
  ghost predicate PartFits(f: Frag, counter: nat, s: ContinueSite)
  {
    counter < s.block <= f.next.counter && s.block != f.next.block && OutIs(f, s)
  }

  /** Edges, gotos and placements added from other blocks change nothing. */
  lemma OutKept(f: Frag, g: Frag, s: ContinueSite)
    requires OutIs(f, s)
    requires forall e :: e in f.edges ==> e in g.edges
    requires forall e :: e in g.edges && e.source == s.block ==> e in f.edges
    requires forall x :: x in g.gotos && x.block == s.block ==> x in f.gotos
    requires forall a :: a in f.places ==> a in g.places
    ensures OutIs(g, s)
  {
  }

  lemma FitsThenLeft(f: Frag, g: Frag, p: Pos, loops: seq<LoopFrame>, s: ContinueSite)
    requires Placed(p) && Confined(f, p, loops) && Confined(g, f.next, loops) && Fits(f, p, s)
    ensures Fits(f.Then(g), p, s)
  {
    OutKept(f, f.Then(g), s);
  }

  lemma FitsThenRight(f: Frag, g: Frag, p: Pos, loops: seq<LoopFrame>, s: ContinueSite)
    requires Placed(p) && Confined(f, p, loops) && Confined(g, f.next, loops) && Fits(g, f.next, s)
    ensures Fits(f.Then(g), p, s)
  {
    OutKept(g, f.Then(g), s);
  }

  lemma PartWired(f: Frag, more: seq<Edge>, counter: nat, s: ContinueSite)
    requires PartFits(f, counter, s) && forall e :: e in more ==> e.source != s.block
    ensures PartFits(f.Wire(more), counter, s)
  {
    OutKept(f, f.Wire(more), s);
  }

  lemma PartThenLeft(f: Frag, g: Frag, hubs: set<int>, meets: set<int>, counter: nat, loops: seq<LoopFrame>, s: ContinueSite)
    requires PartFits(f, counter, s) && Attached(g, hubs, meets, f.next.counter, loops) && s.block !in hubs
    requires g.next.block != s.block
    ensures PartFits(f.Then(g), counter, s)
  {
    OutKept(f, f.Then(g), s);
  }

  lemma PartThenRight(f: Frag, g: Frag, hubs: set<int>, meets: set<int>, counter: nat, loops: seq<LoopFrame>, s: ContinueSite)
    requires Attached(f, hubs, meets, counter, loops) && PartFits(g, f.next.counter, s)
    requires forall x :: x in hubs ==> x <= f.next.counter
    ensures PartFits(f.Then(g), counter, s)
  {
    OutKept(g, f.Then(g), s);
  }

  // ----- Every site fits -----

  lemma {:induction false} WalkFits(ss: seq<Stmt>, p: Pos, loops: seq<LoopFrame>, header: Option<int>, inSwitch: bool)
    requires Placed(p)
    ensures forall s :: s in Sites(ss, p, loops, header, inSwitch) ==> Fits(Walk(ss, p, loops), p, s)
    decreases SizeAll(ss), 1
  {
    if ss != [] {
      hide Step, SitesOf, Confined, Fits, Placed;
      var f := Step(ss[0], p, loops);
      var g := Walk(ss[1..], f.next, loops);
      StepConfined(ss[0], p, loops);
      NextPlaced(f, p, loops);
      WalkConfined(ss[1..], f.next, loops);
      StepFits(ss[0], p, loops, header, inSwitch);
      WalkFits(ss[1..], f.next, loops, header, inSwitch);
      assert Walk(ss, p, loops) == f.Then(g);
      forall s | s in Sites(ss, p, loops, header, inSwitch)
        ensures Fits(f.Then(g), p, s)
      {
        if s in SitesOf(ss[0], p, loops, header, inSwitch) {
          FitsThenLeft(f, g, p, loops, s);
        } else {
          FitsThenRight(f, g, p, loops, s);
        }
      }
    }
  }

  lemma NextPlaced(f: Frag, p: Pos, loops: seq<LoopFrame>)
    requires Placed(p) && Confined(f, p, loops)
    ensures Placed(f.next)
  {
  }

  lemma {:induction false} SequenceFits(ss: seq<Stmt>, counter: nat, loops: seq<LoopFrame>, header: Option<int>, inSwitch: bool)
    ensures forall s :: s in Sites(ss, Fresh(counter), loops, header, inSwitch) ==>
      PartFits(BuildSequence(ss, counter, loops), counter, s)
    decreases SizeAll(ss), 2
  {
    hide Walk, Sites;
    WalkFits(ss, Fresh(counter), loops, header, inSwitch);
    WalkConfined(ss, Fresh(counter), loops);
  }

  lemma {:induction false} StepFits(s: Stmt, p: Pos, loops: seq<LoopFrame>, header: Option<int>, inSwitch: bool)
    requires Placed(p)
    ensures forall c :: c in SitesOf(s, p, loops, header, inSwitch) ==> Fits(Step(s, p, loops), p, c)
    decreases Size(s), 0
  {
    match s
    case Continue(_) => ContinueFits(s, p, loops, header, inSwitch);
    case Compound(_, _) => CompoundFits(s, p, loops, header, inSwitch);
    case If(_, _, _) => IfFits(s, p, loops, header, inSwitch);
    case Loop(_, _, _) => LoopFits(s, p, loops, header, inSwitch);
    case Switch(_, _) => SwitchFits(s, p, loops, header);
    case _ =>
  }

  lemma ContinueFits(s: Stmt, p: Pos, loops: seq<LoopFrame>, header: Option<int>, inSwitch: bool)
    requires s.Continue? && Placed(p)
    ensures forall c :: c in SitesOf(s, p, loops, header, inSwitch) ==> Fits(Step(s, p, loops), p, c)
  {
    var f := Step(s, p, loops);
    if loops != [] {
      assert f.edges == [Edge(p.block, Last(loops).continueTarget, ContinueEdge)];
      assert f.edges[0] in f.edges;
    }
    assert f.places[0] in f.places;
  }

  lemma {:induction false} CompoundFits(s: Stmt, p: Pos, loops: seq<LoopFrame>, header: Option<int>, inSwitch: bool)
    requires s.Compound? && Placed(p)
    ensures forall c :: c in Sites(s.children, Fresh(p.counter), loops, header, inSwitch) ==> Fits(CompoundStep(s, p, loops), p, c)
    decreases SizeAll(s.children), 3
  {
    hide BuildSequence, Sites;
    var f := BuildSequence(s.children, p.counter, loops);
    SequenceFits(s.children, p.counter, loops, header, inSwitch);
    forall c | c in Sites(s.children, Fresh(p.counter), loops, header, inSwitch)
      ensures Fits(CompoundStep(s, p, loops), p, c)
    {
      PartWired(f, [Edge(p.block, p.counter + 1, Fallthrough)], p.counter, c);
    }
  }

  /** A branch or a loop body with the edges into and out of it. */
  lemma {:induction false} BodyFits(b: Option<Stmt>, hub: int, meet: int, counter: nat, kind: EdgeKind,
                                    loops: seq<LoopFrame>, header: Option<int>, inSwitch: bool)
    requires hub <= counter
    ensures forall c :: c in BodySites(b, counter, loops, header, inSwitch) ==>
      PartFits(BranchStep(b, hub, meet, counter, kind, loops), counter, c)
      && PartFits(LoopBodyStep(b, hub, counter, kind, loops), counter, c)
    decreases OptionSize(b), 3
  {
    if b.Some? {
      hide BuildSequence, Sites;
      var f := BuildSequence(Sequence(b), counter, loops);
      SequenceFits(Sequence(b), counter, loops, header, inSwitch);
      forall c | c in BodySites(b, counter, loops, header, inSwitch)
        ensures PartFits(BranchStep(b, hub, meet, counter, kind, loops), counter, c)
        ensures PartFits(LoopBodyStep(b, hub, counter, kind, loops), counter, c)
      {
        PartWired(f, [Edge(hub, counter + 1, kind), Edge(f.next.block, meet, Fallthrough)], counter, c);
        PartWired(f, [Edge(hub, counter + 1, kind), Edge(f.next.block, hub, LoopBack)], counter, c);
      }
    }
  }

  lemma {:induction false} IfFits(s: Stmt, p: Pos, loops: seq<LoopFrame>, header: Option<int>, inSwitch: bool)
    requires s.If? && Placed(p)
    ensures forall c :: c in SitesOf(s, p, loops, header, inSwitch) ==> Fits(IfStep(s, p, loops), p, c)
    decreases OptionSize(s.thenBranch) + OptionSize(s.elseBranch), 4
  {
    hide BranchStep, BodySites, OutIs, Attached;
    var join := p.counter + 1;
    var t := BranchStep(s.thenBranch, p.block, join, join, TrueBranch, loops);
    var middle := t.next.counter;
    var e := BranchStep(s.elseBranch, p.block, join, middle, FalseBranch, loops);
    BranchAttached(s.thenBranch, p.block, join, join, TrueBranch, loops);
    BranchAttached(s.elseBranch, p.block, join, middle, FalseBranch, loops);
    Counters(t, e, {p.block}, {join}, join, loops);
    BodyFits(s.thenBranch, p.block, join, join, TrueBranch, loops, header, inSwitch);
    BodyFits(s.elseBranch, p.block, join, middle, FalseBranch, loops, header, inSwitch);
    BranchEnd(s.elseBranch, p.block, join, middle, FalseBranch, loops);
    forall c | c in SitesOf(s, p, loops, header, inSwitch)
      ensures Fits(IfStep(s, p, loops), p, c)
    {
      if c in BodySites(s.thenBranch, join, loops, header, inSwitch) {
        PartThenLeft(t, e, {p.block}, {join}, join, loops, c);
      } else {
        PartThenRight(t, e, {p.block}, {join}, join, loops, c);
      }
      IfAround(s.id, p, t, e, c);
    }
  }

  lemma Counters(t: Frag, e: Frag, hubs: set<int>, meets: set<int>, counter: nat, loops: seq<LoopFrame>)
    requires Attached(t, hubs, meets, counter, loops) && Attached(e, hubs, meets, t.next.counter, loops)
    ensures counter <= t.next.counter <= e.next.counter
  {
  }

  lemma BranchEnd(b: Option<Stmt>, branch: int, join: int, counter: nat, kind: EdgeKind, loops: seq<LoopFrame>)
    ensures var f := BranchStep(b, branch, join, counter, kind, loops); f.next.block == join || counter < f.next.block
  {
    if b.Some? {
      hide BuildSequence;
      SequenceConfined(Sequence(b), counter, loops);
    }
  }

  lemma IfAround(id: NodeId, p: Pos, t: Frag, e: Frag, c: ContinueSite)
    requires Placed(p) && PartFits(t.Then(e), p.counter + 1, c)
    ensures Fits(IfShape(id, p, t, e), p, c)
  {
    OutKept(t.Then(e), IfShape(id, p, t, e), c);
  }

  lemma {:induction false} LoopFits(s: Stmt, p: Pos, loops: seq<LoopFrame>, header: Option<int>, inSwitch: bool)
    requires s.Loop? && Placed(p)
    ensures forall c :: c in SitesOf(s, p, loops, header, inSwitch) ==> Fits(LoopStep(s, p, loops), p, c)
    decreases OptionSize(s.body), 4
  {
    hide LoopBodyStep, BodySites, OutIs;
    var before, after := p.counter + 1, p.counter + 2;
    var inner := loops + [LoopFrame(before, after)];
    var kind := if s.kind.Do? then Fallthrough else TrueBranch;
    BodyFits(s.body, before, before, after, kind, inner, Some(before), false);
    forall c | c in SitesOf(s, p, loops, header, inSwitch)
      ensures Fits(LoopStep(s, p, loops), p, c)
    {
      LoopAround(s.id, p, LoopBodyStep(s.body, before, after, kind, inner), c);
    }
  }

  lemma LoopAround(id: NodeId, p: Pos, f: Frag, c: ContinueSite)
    requires Placed(p) && PartFits(f, p.counter + 2, c)
    ensures Fits(LoopShape(id, p, f), p, c)
  {
    OutKept(f, LoopShape(id, p, f), c);
  }

  lemma {:induction false} SwitchFits(s: Stmt, p: Pos, loops: seq<LoopFrame>, header: Option<int>)
    requires s.Switch? && Placed(p)
    ensures forall c :: c in SwitchSites(s, p, loops, header) ==> Fits(SwitchStep(s, p, loops), p, c)
    decreases OptionSize(s.compound), 5
  {
    hide GroupsStep, GroupSites, OutIs, SwitchExits, CaseGroups;
    var after := p.counter + 1;
    if s.compound.Some? && s.compound.value.Compound? {
      var groups := CaseGroups(s.compound.value.children);
      assert SizeGroups(groups) < Size(s.compound.value);
      var inner := loops + [LoopFrame(p.block, after)];
      var f := GroupsStep(groups, p.block, after, inner, None);
      GroupsFit(groups, p.block, after, inner, None, header);
      forall c | c in SwitchSites(s, p, loops, header)
        ensures Fits(SwitchStep(s, p, loops), p, c)
      {
        SwitchAround(s.id, p, f, SwitchExits(p.block, after, groups, f.next.block), groups, c);
      }
    }
  }

  lemma SwitchAround(id: NodeId, p: Pos, f: Frag, exits: seq<Edge>, groups: seq<seq<Stmt>>, c: ContinueSite)
    requires forall g: seq<Stmt> :: g in groups ==> |g| > 0 && g[0].Case?
    requires Placed(p) && PartFits(f, p.counter + 1, c) && exits == SwitchExits(p.block, p.counter + 1, groups, f.next.block)
    ensures Fits(SwitchShape(id, p, f, exits), p, c)
  {
    hide HasDefault;
    OutKept(f, SwitchShape(id, p, f, exits), c);
  }

  lemma {:induction false} GroupsFit(groups: seq<seq<Stmt>>, switchBlock: int, counter: nat, loops: seq<LoopFrame>,
                                     previous: Option<int>, header: Option<int>)
    requires forall g: seq<Stmt> :: g in groups ==> |g| > 0 && g[0].Case?
    requires switchBlock <= counter && (previous.Some? ==> previous.value <= counter)
    ensures forall c :: c in GroupSites(groups, switchBlock, counter, loops, previous, header) ==>
      PartFits(GroupsStep(groups, switchBlock, counter, loops, previous), counter, c)
    decreases SizeGroups(groups), 4, |groups|
  {
    if groups != [] {
      hide GroupFrag, Sites, PartFits, GroupMet;
      var f := GroupFrag(groups[0], switchBlock, counter, loops, previous);
      var g := GroupsStep(groups[1..], switchBlock, f.next.counter, loops, Some(f.next.block));
      GroupEnds(groups[0], switchBlock, counter, loops, previous);
      GroupFits(groups[0], switchBlock, counter, loops, previous, header);
      GroupsFit(groups[1..], switchBlock, f.next.counter, loops, Some(f.next.block), header);
      forall c | c in GroupSites(groups, switchBlock, counter, loops, previous, header)
        ensures PartFits(f.Then(g), counter, c)
      {
        GroupsMeet(groups, f, g, switchBlock, previous, counter, loops);
        GroupThen(f, g, switchBlock, previous, counter, loops, c);
      }
    }
  }

  function Hubs(switchBlock: int, previous: Option<int>): set<int>
  {
    {switchBlock} + (if previous.Some? then {previous.value} else {})
  }

  lemma GroupsMeet(groups: seq<seq<Stmt>>, f: Frag, g: Frag, switchBlock: int, previous: Option<int>, counter: nat,
                   loops: seq<LoopFrame>)
    requires groups != [] && forall g: seq<Stmt> :: g in groups ==> |g| > 0 && g[0].Case?
    requires f == GroupFrag(groups[0], switchBlock, counter, loops, previous)
    requires g == GroupsStep(groups[1..], switchBlock, f.next.counter, loops, Some(f.next.block))
    ensures GroupMet(f, g, switchBlock, previous, counter, loops)
  {
    hide GroupFrag, GroupsStep, Attached;
    GroupAttached(groups[0], switchBlock, Hubs(switchBlock, previous), counter, loops, previous);
    GroupsAttached(groups[1..], switchBlock, f.next.counter, loops, Some(f.next.block));
    LastGroupEnds(groups[1..], switchBlock, f.next.counter, loops, f.next.block);
    assert {switchBlock} + {f.next.block} == {switchBlock, f.next.block};
  }

  /** A group, and the groups after it, which are entered from its end. */
  ghost predicate GroupMet(f: Frag, g: Frag, switchBlock: int, previous: Option<int>, counter: nat, loops: seq<LoopFrame>)
  {
    && Attached(f, Hubs(switchBlock, previous), {}, counter, loops)
    && Attached(g, {switchBlock, f.next.block}, {}, f.next.counter, loops)
    && (g.next.block == f.next.block || f.next.counter < g.next.block)
  }

  lemma GroupThen(f: Frag, g: Frag, switchBlock: int, previous: Option<int>, counter: nat, loops: seq<LoopFrame>,
                  c: ContinueSite)
    requires switchBlock <= counter && (previous.Some? ==> previous.value <= counter)
    requires GroupMet(f, g, switchBlock, previous, counter, loops) && counter < f.next.block <= f.next.counter
    requires PartFits(f, counter, c) || PartFits(g, f.next.counter, c)
    ensures PartFits(f.Then(g), counter, c)
  {
    hide Attached, OutIs;
    if PartFits(f, counter, c) {
      PartThenLeft(f, g, {switchBlock, f.next.block}, {}, counter, loops, c);
    } else {
      PartThenRight(f, g, Hubs(switchBlock, previous), {}, counter, loops, c);
    }
  }

  lemma GroupEnds(group: seq<Stmt>, switchBlock: int, counter: nat, loops: seq<LoopFrame>, previous: Option<int>)
    requires |group| > 0 && group[0].Case?
    ensures var f := GroupFrag(group, switchBlock, counter, loops, previous); counter < f.next.block <= f.next.counter
  {
    hide BuildSequence;
    SequenceConfined(group, counter, loops);
  }

  lemma LastGroupEnds(groups: seq<seq<Stmt>>, switchBlock: int, counter: nat, loops: seq<LoopFrame>, previous: int)
    requires forall g: seq<Stmt> :: g in groups ==> |g| > 0 && g[0].Case?
    ensures var f := GroupsStep(groups, switchBlock, counter, loops, Some(previous));
      f.next.block == previous || counter < f.next.block
  {
    hide GroupFrag;
    GroupsAttached(groups, switchBlock, counter, loops, Some(previous));
  }

  lemma {:induction false} GroupFits(group: seq<Stmt>, switchBlock: int, counter: nat, loops: seq<LoopFrame>,
                                     previous: Option<int>, header: Option<int>)
    requires |group| > 0 && group[0].Case?
    requires switchBlock <= counter && (previous.Some? ==> previous.value <= counter)
    ensures forall c :: c in Sites(group, Fresh(counter), loops, header, true) ==>
      PartFits(GroupFrag(group, switchBlock, counter, loops, previous), counter, c)
    decreases SizeAll(group), 3
  {
    hide BuildSequence, Sites;
    var f := BuildSequence(group, counter, loops);
    SequenceFits(group, counter, loops, header, true);
    var more := [Edge(switchBlock, counter + 1, if group[0].isDefault then DefaultEdge else CaseEdge)]
      + if previous.Some? then [Edge(previous.value, counter + 1, SwitchFallthrough)] else [];
    forall c | c in Sites(group, Fresh(counter), loops, header, true)
      ensures PartFits(GroupFrag(group, switchBlock, counter, loops, previous), counter, c)
    {
      PartWired(f, more, counter, c);
    }
  }

  // ----- Where every site aims -----

  /** The innermost frame is the innermost loop unless a switch stands between. */
  ghost predicate Aligned(loops: seq<LoopFrame>, header: Option<int>, inSwitch: bool)
  {
    if inSwitch then loops != [] && header != Innermost(loops) else header == Innermost(loops)
  }

  /** The header was made before, and building has moved on from it. */
  ghost predicate Behind(header: Option<int>, p: Pos)
  {
    header.Some? ==> header.value <= p.counter && header.value != p.block
  }

  ghost predicate Aimed(s: ContinueSite)
  {
    (s.goes == s.header) <==> !s.inSwitch
  }

  ghost predicate AllAimed(sites: set<ContinueSite>)
  {
    forall s :: s in sites ==> Aimed(s)
  }

  lemma {:induction false} WalkAimed(ss: seq<Stmt>, p: Pos, loops: seq<LoopFrame>, header: Option<int>, inSwitch: bool)
    requires Placed(p) && Aligned(loops, header, inSwitch) && Behind(header, p)
    ensures AllAimed(Sites(ss, p, loops, header, inSwitch))
    decreases SizeAll(ss), 1
  {
    if ss != [] {
      hide Step, SitesOf, Placed, Aligned;
      var f := Step(ss[0], p, loops);
      StepConfined(ss[0], p, loops);
      NextPlaced(f, p, loops);
      StepAimed(ss[0], p, loops, header, inSwitch);
      WalkAimed(ss[1..], f.next, loops, header, inSwitch);
    }
  }

  lemma {:induction false} StepAimed(s: Stmt, p: Pos, loops: seq<LoopFrame>, header: Option<int>, inSwitch: bool)
    requires Placed(p) && Aligned(loops, header, inSwitch) && Behind(header, p)
    ensures AllAimed(SitesOf(s, p, loops, header, inSwitch))
    decreases Size(s), 0
  {
    hide Sites, BodySites, SwitchSites, BranchStep;
    match s
    case Compound(_, ss) => WalkAimed(ss, Fresh(p.counter), loops, header, inSwitch);
    case If(_, th, el) =>
      var join := p.counter + 1;
      BranchCounter(th, p.block, join, join, TrueBranch, loops);
      BodyAimed(th, join, loops, header, inSwitch);
      BodyAimed(el, BranchStep(th, p.block, join, join, TrueBranch, loops).next.counter, loops, header, inSwitch);
    case Loop(_, _, b) =>
      BodyAimed(b, p.counter + 2, loops + [LoopFrame(p.counter + 1, p.counter + 2)], Some(p.counter + 1), false);
    case Switch(_, _) => SwitchAimed(s, p, loops, header);
    case _ =>
  }

  lemma BranchCounter(b: Option<Stmt>, branch: int, join: int, counter: nat, kind: EdgeKind, loops: seq<LoopFrame>)
    ensures counter <= BranchStep(b, branch, join, counter, kind, loops).next.counter
  {
    if b.Some? {
      hide BuildSequence;
      SequenceConfined(Sequence(b), counter, loops);
    }
  }

  lemma {:induction false} BodyAimed(b: Option<Stmt>, counter: nat, loops: seq<LoopFrame>, header: Option<int>, inSwitch: bool)
    requires Aligned(loops, header, inSwitch) && (header.Some? ==> header.value <= counter)
    ensures AllAimed(BodySites(b, counter, loops, header, inSwitch))
    decreases OptionSize(b), 2
  {
    if b.Some? {
      hide Sites;
      WalkAimed(Sequence(b), Fresh(counter), loops, header, inSwitch);
    }
  }

  lemma {:induction false} SwitchAimed(s: Stmt, p: Pos, loops: seq<LoopFrame>, header: Option<int>)
    requires s.Switch? && Placed(p) && Behind(header, p)
    ensures AllAimed(SwitchSites(s, p, loops, header))
    decreases OptionSize(s.compound), 5
  {
    if s.compound.Some? && s.compound.value.Compound? {
      hide GroupSites, CaseGroups;
      var groups := CaseGroups(s.compound.value.children);
      assert SizeGroups(groups) < Size(s.compound.value);
      GroupsAimed(groups, p.block, p.counter + 1, loops + [LoopFrame(p.block, p.counter + 1)], None, header);
    }
  }

  lemma {:induction false} GroupsAimed(groups: seq<seq<Stmt>>, switchBlock: int, counter: nat, loops: seq<LoopFrame>,
                                       previous: Option<int>, header: Option<int>)
    requires forall g: seq<Stmt> :: g in groups ==> |g| > 0 && g[0].Case?
    requires Aligned(loops, header, true) && (header.Some? ==> header.value <= counter)
    ensures AllAimed(GroupSites(groups, switchBlock, counter, loops, previous, header))
    decreases SizeGroups(groups), 4, |groups|
  {
    if groups != [] {
      hide GroupFrag, Sites, Aligned;
      var f := GroupFrag(groups[0], switchBlock, counter, loops, previous);
      GroupEnds(groups[0], switchBlock, counter, loops, previous);
      WalkAimed(groups[0], Fresh(counter), loops, header, true);
      GroupsAimed(groups[1..], switchBlock, f.next.counter, loops, Some(f.next.block), header);
    }
  }

  // ----- The whole graph -----

  ghost function ContinuesOf(body: seq<Stmt>): set<ContinueSite>
  {
    Sites(body, Fresh(0), [], None, false)
  }

  /** The block of a `continue` is left by one arc, to the innermost loop or
      switch, and by none outside of both. That is the header of the innermost
      loop iff no switch stands between. */
  lemma ContinueGoes(body: seq<Stmt>, s: ContinueSite, y: int)
    requires s in ContinuesOf(body)
    ensures s.block in RawGraph(body).blocks && s.id in RawGraph(body).blocks[s.block]
    ensures (s.block, y) in RawGraph(body).Arcs() <==> s.goes == Some(y)
    ensures (s.goes == s.header) <==> !s.inSwitch
  {
    hide RawGraph, BuildSequence, GotoEdges, Sites;
    var f := BuildSequence(body, 0, []);
    assert body != [] by {
      SitesOfNothing(body);
    }
    SequenceFits(body, 0, [], None, false);
    WalkAimed(body, Fresh(0), [], None, false);
    SequenceConfinedBody(body, f);
    GotoEdgesAre(f.gotos, f.labels);
    ArcOfEdge(RawGraph(body).edges, s.block, y);
    PlacedIn(f.places, s.block, s.id);
    RawGraphBlocks(body);
    forall e: Edge | e.source == s.block
      ensures e in RawGraph(body).edges <==> e in f.edges
    {
      RawEdges(body, f, e);
    }
  }

  lemma {:induction false} PlacedIn(places: seq<Place>, b: int, id: NodeId)
    requires Place(b, id) in places
    ensures id in PlacedAt(places, b)
  {
    if places[0] != Place(b, id) {
      PlacedIn(places[1..], b, id);
    }
  }

  lemma RawGraphBlocks(body: seq<Stmt>)
    requires body != []
    ensures var f := BuildSequence(body, 0, []); RawGraph(body).blocks == BlocksOf(f.next.counter, f.places)
  {
    hide BuildSequence, GotoEdges, AllEdges;
  }

  lemma SitesOfNothing(body: seq<Stmt>)
    ensures body == [] ==> ContinuesOf(body) == {}
  {
  }

  // ----- The graph that is returned -----

  /** Where the site goes is the innermost frame around the fragment, or a block
      in which the fragment places a statement. */
  ghost predicate GoesToStatement(f: Frag, loops: seq<LoopFrame>, s: ContinueSite)
  {
    s.goes == Innermost(loops) || exists a :: a in f.places && s.goes == Some(a.block)
  }

  ghost predicate AllGoToStatements(f: Frag, loops: seq<LoopFrame>, sites: set<ContinueSite>)
  {
    forall s :: s in sites ==> GoesToStatement(f, loops, s)
  }

  lemma GoKept(f: Frag, g: Frag, loops: seq<LoopFrame>, sites: set<ContinueSite>)
    requires AllGoToStatements(f, loops, sites) && forall a :: a in f.places ==> a in g.places
    ensures AllGoToStatements(g, loops, sites)
  {
    forall s | s in sites
      ensures GoesToStatement(g, loops, s)
    {
      assert GoesToStatement(f, loops, s);
    }
  }

  /** The frame of a loop or switch is a block that holds its statement. */
  lemma FrameHolds(f: Frag, g: Frag, loops: seq<LoopFrame>, inner: seq<LoopFrame>, sites: set<ContinueSite>, place: Place)
    requires AllGoToStatements(f, inner, sites) && forall a :: a in f.places ==> a in g.places
    requires place in g.places && Innermost(inner) == Some(place.block)
    ensures AllGoToStatements(g, loops, sites)
  {
    forall s | s in sites
      ensures GoesToStatement(g, loops, s)
    {
      assert GoesToStatement(f, inner, s);
    }
  }

  lemma {:induction false} WalkGoes(ss: seq<Stmt>, p: Pos, loops: seq<LoopFrame>, header: Option<int>, inSwitch: bool)
    ensures AllGoToStatements(Walk(ss, p, loops), loops, Sites(ss, p, loops, header, inSwitch))
    decreases SizeAll(ss), 1
  {
    if ss != [] {
      hide Step, SitesOf, GoesToStatement;
      var f := Step(ss[0], p, loops);
      var g := Walk(ss[1..], f.next, loops);
      StepGoes(ss[0], p, loops, header, inSwitch);
      WalkGoes(ss[1..], f.next, loops, header, inSwitch);
      GoKept(f, f.Then(g), loops, SitesOf(ss[0], p, loops, header, inSwitch));
      GoKept(g, f.Then(g), loops, Sites(ss[1..], f.next, loops, header, inSwitch));
    }
  }

  lemma {:induction false} StepGoes(s: Stmt, p: Pos, loops: seq<LoopFrame>, header: Option<int>, inSwitch: bool)
    ensures AllGoToStatements(Step(s, p, loops), loops, SitesOf(s, p, loops, header, inSwitch))
    decreases Size(s), 0
  {
    hide Sites, BodySites, SwitchSites, BranchStep, LoopBodyStep, Walk, GroupsStep;
    match s
    case Compound(_, ss) =>
      WalkGoes(ss, Fresh(p.counter), loops, header, inSwitch);
      GoKept(BuildSequence(ss, p.counter, loops), CompoundStep(s, p, loops), loops, Sites(ss, Fresh(p.counter), loops, header, inSwitch));
    case If(_, th, el) =>
      var join := p.counter + 1;
      var x := BranchStep(th, p.block, join, join, TrueBranch, loops);
      var y := BranchStep(el, p.block, join, x.next.counter, FalseBranch, loops);
      BodyGoes(th, p.block, join, join, TrueBranch, loops, header, inSwitch);
      BodyGoes(el, p.block, join, x.next.counter, FalseBranch, loops, header, inSwitch);
      GoKept(x, IfShape(s.id, p, x, y), loops, BodySites(th, join, loops, header, inSwitch));
      GoKept(y, IfShape(s.id, p, x, y), loops, BodySites(el, x.next.counter, loops, header, inSwitch));
    case Loop(id, kind, b) =>
      var inner := loops + [LoopFrame(p.counter + 1, p.counter + 2)];
      var f := LoopBodyStep(b, p.counter + 1, p.counter + 2, if kind.Do? then Fallthrough else TrueBranch, inner);
      BodyGoes(b, p.counter + 1, p.counter + 1, p.counter + 2, if kind.Do? then Fallthrough else TrueBranch, inner,
               Some(p.counter + 1), false);
      LoopPlacesHeader(id, p, f);
      FrameHolds(f, LoopShape(id, p, f), loops, inner, BodySites(b, p.counter + 2, inner, Some(p.counter + 1), false),
                 Place(p.counter + 1, id));
    case Switch(_, _) => SwitchGoes(s, p, loops, header);
    case _ =>
  }

  lemma LoopPlacesHeader(id: NodeId, p: Pos, f: Frag)
    ensures Place(p.counter + 1, id) in LoopShape(id, p, f).places
    ensures forall a :: a in f.places ==> a in LoopShape(id, p, f).places
  {
    assert LoopShape(id, p, f).places == [Place(p.counter + 1, id)] + f.places;
  }

  lemma {:induction false} BodyGoes(b: Option<Stmt>, hub: int, meet: int, counter: nat, kind: EdgeKind,
                                    loops: seq<LoopFrame>, header: Option<int>, inSwitch: bool)
    ensures AllGoToStatements(BranchStep(b, hub, meet, counter, kind, loops), loops, BodySites(b, counter, loops, header, inSwitch))
    ensures AllGoToStatements(LoopBodyStep(b, hub, counter, kind, loops), loops, BodySites(b, counter, loops, header, inSwitch))
    decreases OptionSize(b), 2
  {
    if b.Some? {
      hide Walk, Sites;
      WalkGoes(Sequence(b), Fresh(counter), loops, header, inSwitch);
      var f, sites := BuildSequence(Sequence(b), counter, loops), Sites(Sequence(b), Fresh(counter), loops, header, inSwitch);
      GoKept(f, BranchStep(b, hub, meet, counter, kind, loops), loops, sites);
      GoKept(f, LoopBodyStep(b, hub, counter, kind, loops), loops, sites);
    }
  }

  lemma {:induction false} SwitchGoes(s: Stmt, p: Pos, loops: seq<LoopFrame>, header: Option<int>)
    requires s.Switch?
    ensures AllGoToStatements(SwitchStep(s, p, loops), loops, SwitchSites(s, p, loops, header))
    decreases OptionSize(s.compound), 5
  {
    if s.compound.Some? && s.compound.value.Compound? {
      hide GroupSites, GroupsStep, SwitchStep, SwitchSites, AllGoToStatements;
      var groups := CaseGroups(s.compound.value.children);
      assert SizeGroups(groups) < Size(s.compound.value);
      var inner := loops + [LoopFrame(p.block, p.counter + 1)];
      var f := GroupsStep(groups, p.block, p.counter + 1, inner, None);
      GroupsGo(groups, p.block, p.counter + 1, inner, None, header);
      SwitchStepIs(s, p, loops);
      SwitchSitesAre(s, p, loops, header);
      SwitchGoesAround(s.id, p, loops, f, SwitchExits(p.block, p.counter + 1, groups, f.next.block),
                       GroupSites(groups, p.block, p.counter + 1, inner, None, header));
    } else {
      GoesNowhere(SwitchStep(s, p, loops), loops);
    }
  }

  lemma SwitchStepIs(s: Stmt, p: Pos, loops: seq<LoopFrame>)
    requires s.Switch? && s.compound.Some? && s.compound.value.Compound?
    ensures var groups := CaseGroups(s.compound.value.children);
      var f := GroupsStep(groups, p.block, p.counter + 1, loops + [LoopFrame(p.block, p.counter + 1)], None);
      SwitchStep(s, p, loops) == SwitchShape(s.id, p, f, SwitchExits(p.block, p.counter + 1, groups, f.next.block))
  {
    hide GroupsStep, SwitchExits, SwitchShape, CaseGroups;
  }

  lemma SwitchSitesAre(s: Stmt, p: Pos, loops: seq<LoopFrame>, header: Option<int>)
    requires s.Switch? && s.compound.Some? && s.compound.value.Compound?
    ensures var groups := CaseGroups(s.compound.value.children);
      SwitchSites(s, p, loops, header)
      == GroupSites(groups, p.block, p.counter + 1, loops + [LoopFrame(p.block, p.counter + 1)], None, header)
  {
    hide GroupSites, CaseGroups;
  }

  lemma SwitchGoesAround(id: NodeId, p: Pos, loops: seq<LoopFrame>, f: Frag, exits: seq<Edge>, sites: set<ContinueSite>)
    requires AllGoToStatements(f, loops + [LoopFrame(p.block, p.counter + 1)], sites)
    ensures AllGoToStatements(SwitchShape(id, p, f, exits), loops, sites)
  {
    hide SwitchShape, AllGoToStatements;
    SwitchPlacesItself(id, p, f, exits);
    FrameHolds(f, SwitchShape(id, p, f, exits), loops, loops + [LoopFrame(p.block, p.counter + 1)], sites, Place(p.block, id));
  }

  lemma GoesNowhere(f: Frag, loops: seq<LoopFrame>)
    ensures AllGoToStatements(f, loops, {})
  {
  }

  lemma SwitchPlacesItself(id: NodeId, p: Pos, f: Frag, exits: seq<Edge>)
    ensures Place(p.block, id) in SwitchShape(id, p, f, exits).places
    ensures forall a :: a in f.places ==> a in SwitchShape(id, p, f, exits).places
  {
    assert SwitchShape(id, p, f, exits).places == [Place(p.block, id)] + f.places;
  }

  lemma {:induction false} GroupsGo(groups: seq<seq<Stmt>>, switchBlock: int, counter: nat, loops: seq<LoopFrame>,
                                    previous: Option<int>, header: Option<int>)
    requires forall g: seq<Stmt> :: g in groups ==> |g| > 0 && g[0].Case?
    ensures AllGoToStatements(GroupsStep(groups, switchBlock, counter, loops, previous), loops,
                              GroupSites(groups, switchBlock, counter, loops, previous, header))
    decreases SizeGroups(groups), 4, |groups|
  {
    if groups != [] {
      hide Walk, Sites, GoesToStatement;
      var f := GroupFrag(groups[0], switchBlock, counter, loops, previous);
      var g := GroupsStep(groups[1..], switchBlock, f.next.counter, loops, Some(f.next.block));
      WalkGoes(groups[0], Fresh(counter), loops, header, true);
      GroupsGo(groups[1..], switchBlock, f.next.counter, loops, Some(f.next.block), header);
      GoKept(BuildSequence(groups[0], counter, loops), f.Then(g), loops, Sites(groups[0], Fresh(counter), loops, header, true));
      GoKept(g, f.Then(g), loops, GroupSites(groups[1..], switchBlock, f.next.counter, loops, Some(f.next.block), header));
    }
  }

  /** A block that a `continue` leads to holds a statement, the loop's or the switch's. */
  lemma ContinueTargetHolds(body: seq<Stmt>, s: ContinueSite)
    requires s in ContinuesOf(body) && s.goes.Some?
    ensures s.goes.value in RawGraph(body).blocks && RawGraph(body).blocks[s.goes.value] != []
  {
    hide RawGraph, Walk, Sites, BlocksOf;
    var f := BuildSequence(body, 0, []);
    SitesOfNothing(body);
    assert f == Walk(body, Fresh(0), []);
    WalkGoes(body, Fresh(0), [], None, false);
    assert GoesToStatement(f, [], s);
    var a :| a in f.places && s.goes == Some(a.block);
    PlacedIn(f.places, a.block, a.id);
    SequenceConfinedBody(body, f);
    RawGraphBlocks(body);
    BlockThere(f, a.block);
  }

  lemma BlockThere(f: Frag, b: int)
    requires 0 < b <= f.next.counter
    ensures b in BlocksOf(f.next.counter, f.places) && BlocksOf(f.next.counter, f.places)[b] == PlacedAt(f.places, b)
  {
  }

  /** All this holds of the graph that `build` returns: pruning touches neither
      the block of a `continue` nor the one it leads to. */
  lemma PrunedContinueGoes(body: seq<Stmt>, h: Cfg, s: ContinueSite, y: int)
    requires s in ContinuesOf(body) && PrunedTo(RawGraph(body), h)
    ensures s.block in h.blocks && s.id in h.blocks[s.block]
    ensures (s.block, y) in h.Arcs() <==> s.goes == Some(y)
  {
    hide RawGraph, Sites;
    var gs :| PruneSteps(gs) && gs[0] == RawGraph(body) && Last(gs) == h;
    ContinueGoes(body, s, y);
    PrunedBlocks(gs);
    if s.goes.Some? {
      ContinueTargetHolds(body, s);
    }
    forall z | (s.block, z) in RawGraph(body).Arcs()
      ensures z in RawGraph(body).blocks && RawGraph(body).blocks[z] != []
    {
      ContinueGoes(body, s, z);
    }
    PrunedKeepsArcs(gs, s.block, y);
  }

  /** `while (1) switch (2) { case (3): continue (4); }`: from the `continue`
      in block 6 one comes to the block 4 of the switch, not to the header 2. */
  lemma ContinueInSwitch(body: seq<Stmt>, g: Cfg)
    requires body == [Loop(1, While, Some(Compound(9, [Switch(2, Some(Compound(8, [Case(3, false), Continue(4)])))])))]
    requires g == RawGraph(body)
    ensures ContinueSite(6, 4, Some(4), Some(2), true) in ContinuesOf(body)
    ensures (6, 4) in g.Arcs() && (6, 2) !in g.Arcs()
  {
    hide RawGraph, Sites;
    var s := ContinueSite(6, 4, Some(4), Some(2), true);
    ContinueInSwitchSite(body);
    ContinueGoes(body, s, 4);
    ContinueGoes(body, s, 2);
  }

  lemma ContinueInSwitchSite(body: seq<Stmt>)
    requires body == [Loop(1, While, Some(Compound(9, [Switch(2, Some(Compound(8, [Case(3, false), Continue(4)])))])))]
    ensures ContinueSite(6, 4, Some(4), Some(2), true) in ContinuesOf(body)
  {
    hide GroupSites, SwitchSites, Step;
    var group := [Case(3, false), Continue(4)];
    var inner := body[0].body.value.children;
    assert inner == [Switch(2, Some(Compound(8, group)))];
    assert [] + [LoopFrame(2, 3)] == [LoopFrame(2, 3)];
    ContinueInGroup(inner[0], group);
    assert SitesOf(inner[0], Fresh(3), [LoopFrame(2, 3)], Some(2), false) == SwitchSites(inner[0], Fresh(3), [LoopFrame(2, 3)], Some(2));
    assert BodySites(body[0].body, 3, [LoopFrame(2, 3)], Some(2), false) >= SwitchSites(inner[0], Fresh(3), [LoopFrame(2, 3)], Some(2));
    assert SitesOf(body[0], Fresh(0), [], None, false) == BodySites(body[0].body, 3, [LoopFrame(2, 3)], Some(2), false);
  }

  lemma ContinueInGroup(s: Stmt, group: seq<Stmt>)
    requires group == [Case(3, false), Continue(4)] && s == Switch(2, Some(Compound(8, group)))
    ensures ContinueSite(6, 4, Some(4), Some(2), true) in SwitchSites(s, Fresh(3), [LoopFrame(2, 3)], Some(2))
  {
    hide Sites, CaseGroups, Step;
    var loops := [LoopFrame(2, 3), LoopFrame(4, 5)];
    assert [LoopFrame(2, 3)] + [LoopFrame(4, 5)] == loops;
    ContinueAlone(group, loops);
    OneGroup(group);
    assert GroupSites([group], 4, 5, loops, None, Some(2)) >= Sites(group, Fresh(5), loops, Some(2), true);
  }

  lemma ContinueAlone(group: seq<Stmt>, loops: seq<LoopFrame>)
    requires group == [Case(3, false), Continue(4)] && loops == [LoopFrame(2, 3), LoopFrame(4, 5)]
    ensures ContinueSite(6, 4, Some(4), Some(2), true) in Sites(group, Fresh(5), loops, Some(2), true)
  {
    assert group[1..] == [Continue(4)];
    assert ContinueSite(6, 4, Some(4), Some(2), true) in SitesOf(group[1], Pos(6, 1, 6), loops, Some(2), true);
    assert Step(group[0], Fresh(5), loops).next == Pos(6, 1, 6);
  }

  lemma OneGroup(group: seq<Stmt>)
    requires group == [Case(3, false), Continue(4)]
    ensures CaseGroups(group) == [group]
  {
    assert group[1..] == [Continue(4)] && [Continue(4)][1..] == [];
    assert GroupLength(group[1..]) == 1;
    assert group[..2] == group && group[2..] == [];
  }
}
