/** What building any statement may touch: the block it starts in and blocks of
    its own. It leaves them only for the exit or an enclosing loop or switch,
    and nothing leads out of the block in which it ends. */
module CfgWellFormed {
  import opened Collections
  import opened Ast
  import opened Paths
  import opened CfgSpec

  ghost predicate Placed(p: Pos)
  {
    0 < p.block <= p.counter
  }

  /** The blocks a fragment may touch: the block it starts in and the ones it creates. */
  ghost predicate InRegion(x: int, p: Pos, q: Pos)
  {
    x == p.block || p.counter < x <= q.counter
  }

  /** Where a jump may leave a fragment for: the exit and the enclosing loops
      and switches. */
  function Exits(loops: seq<LoopFrame>): set<int>
  {
    if loops == [] then {EXIT}
    else {Last(loops).continueTarget, Last(loops).breakTarget} + Exits(loops[..|loops| - 1])
  }

  lemma ExitsOfInner(loops: seq<LoopFrame>, l: LoopFrame)
    ensures Exits(loops + [l]) == {l.continueTarget, l.breakTarget} + Exits(loops)
  {
    assert (loops + [l])[..|loops|] == loops;
  }

  lemma {:induction false} ExitIsExit(loops: seq<LoopFrame>)
    ensures EXIT in Exits(loops)
  {
    if loops != [] {
      ExitIsExit(loops[..|loops| - 1]);
    }
  }

  /** How many statements block `b` held when the fragment started. */
  function StartOffset(b: int, p: Pos): nat
  {
    if b == p.block then p.offset else 0
  }

  /** A fragment touches only its own region, its end has no way out yet, and
      its jumps leave only for the exit or an enclosing loop or switch. */
  ghost predicate Confined(f: Frag, p: Pos, loops: seq<LoopFrame>)
  {
    && p.counter <= f.next.counter
    && InRegion(f.next.block, p, f.next)
    && (forall e :: e in f.edges ==>
          && InRegion(e.source, p, f.next) && e.source != f.next.block
          && (InRegion(e.target, p, f.next) || e.target in Exits(loops)))
    && (forall a :: a in f.places ==> InRegion(a.block, p, f.next))
    && (forall l :: l in f.labels ==> InRegion(l.block, p, f.next))
    && (forall g :: g in f.gotos ==> InRegion(g.block, p, f.next) && g.block != f.next.block)
    && f.next.offset == StartOffset(f.next.block, p) + |PlacedAt(f.places, f.next.block)|
  }

  lemma {:induction false} PlacedAtAppend(a: seq<Place>, b: seq<Place>, x: int)
    ensures PlacedAt(a + b, x) == PlacedAt(a, x) + PlacedAt(b, x)
  {
    if a == [] {
      assert a + b == b;
    } else {
      var here := if a[0].block == x then [a[0].id] else [];
      assert (a + b)[1..] == a[1..] + b;
      PlacedAtAppend(a[1..], b, x);
      assert PlacedAt(a + b, x) == here + PlacedAt(a[1..] + b, x);
      assert PlacedAt(a, x) == here + PlacedAt(a[1..], x);
    }
  }

  lemma {:induction false} PlacedAtNowhere(a: seq<Place>, x: int)
    requires forall y :: y in a ==> y.block != x
    ensures PlacedAt(a, x) == []
  {
    if a != [] {
      PlacedAtNowhere(a[1..], x);
    }
  }

  lemma ConfinedThen(f: Frag, g: Frag, p: Pos, loops: seq<LoopFrame>)
    requires Placed(p) && Confined(f, p, loops) && Confined(g, f.next, loops)
    ensures Confined(f.Then(g), p, loops)
  {
    PlacedAtAppend(f.places, g.places, g.next.block);
    if g.next.block != f.next.block {
      PlacedAtNowhere(f.places, g.next.block);
    }
  }

  lemma {:induction false} WalkConfined(ss: seq<Stmt>, p: Pos, loops: seq<LoopFrame>)
    requires Placed(p)
    ensures Confined(Walk(ss, p, loops), p, loops)
    decreases SizeAll(ss), 1
  {
    if ss != [] {
      StepConfined(ss[0], p, loops);
      var f := Step(ss[0], p, loops);
      WalkConfined(ss[1..], f.next, loops);
      ConfinedThen(f, Walk(ss[1..], f.next, loops), p, loops);
    }
  }

  lemma SequenceConfined(ss: seq<Stmt>, counter: nat, loops: seq<LoopFrame>)
    ensures Confined(BuildSequence(ss, counter, loops), Fresh(counter), loops)
    decreases SizeAll(ss), 2
  {
    WalkConfined(ss, Fresh(counter), loops);
  }

  /** What a branch, loop body or case group adds: blocks after `counter`, and
      edges out of those and out of `hubs`, into those and into `meets`. */
  ghost predicate Attached(f: Frag, hubs: set<int>, meets: set<int>, counter: nat, loops: seq<LoopFrame>)
  {
    && counter <= f.next.counter
    && (forall e :: e in f.edges ==>
          && (e.source in hubs || counter < e.source <= f.next.counter)
          && (e.target in meets || counter < e.target <= f.next.counter || e.target in Exits(loops)))
    && (forall a :: a in f.places ==> counter < a.block <= f.next.counter)
    && (forall l :: l in f.labels ==> counter < l.block <= f.next.counter)
    && (forall g :: g in f.gotos ==> counter < g.block <= f.next.counter)
  }

  lemma BranchAttached(b: Option<Stmt>, branch: int, join: int, counter: nat, kind: EdgeKind, loops: seq<LoopFrame>)
    ensures Attached(BranchStep(b, branch, join, counter, kind, loops), {branch}, {join}, counter, loops)
    decreases OptionSize(b), 3
  {
    if b.Some? {
      SequenceConfined(Sequence(b), counter, loops);
    }
  }

  lemma LoopBodyAttached(b: Option<Stmt>, header: int, counter: nat, kind: EdgeKind, loops: seq<LoopFrame>)
    ensures Attached(LoopBodyStep(b, header, counter, kind, loops), {header}, {header}, counter, loops)
    decreases OptionSize(b), 3
  {
    if b.Some? {
      SequenceConfined(Sequence(b), counter, loops);
    }
  }

  lemma AttachedThen(f: Frag, g: Frag, hubs: set<int>, inner: set<int>, meets: set<int>, counter: nat, loops: seq<LoopFrame>)
    requires Attached(f, hubs, meets, counter, loops) && Attached(g, inner, meets, f.next.counter, loops)
    requires forall x :: x in inner ==> x in hubs || counter < x <= f.next.counter
    ensures Attached(f.Then(g), hubs, meets, counter, loops)
  {
  }

  lemma GroupAttached(group: seq<Stmt>, switchBlock: int, hubs: set<int>, counter: nat, loops: seq<LoopFrame>,
                      previous: Option<int>)
    requires |group| > 0 && group[0].Case?
    requires switchBlock in hubs && (previous.Some? ==> previous.value in hubs)
    ensures Attached(GroupFrag(group, switchBlock, counter, loops, previous), hubs, {}, counter, loops)
    decreases SizeAll(group), 3
  {
    SequenceConfined(group, counter, loops);
  }

  lemma {:induction false} GroupsAttached(groups: seq<seq<Stmt>>, switchBlock: int, counter: nat,
                                          loops: seq<LoopFrame>, previous: Option<int>)
    requires forall g: seq<Stmt> :: g in groups ==> |g| > 0 && g[0].Case?
    ensures var f := GroupsStep(groups, switchBlock, counter, loops, previous);
            && Attached(f, {switchBlock} + (if previous.Some? then {previous.value} else {}), {}, counter, loops)
            && (groups != [] ==> counter < f.next.block <= f.next.counter)
    decreases SizeGroups(groups), 4, |groups|
  {
    if groups != [] {
      var hubs := {switchBlock} + (if previous.Some? then {previous.value} else {});
      var f := GroupFrag(groups[0], switchBlock, counter, loops, previous);
      GroupAttached(groups[0], switchBlock, hubs, counter, loops, previous);
      SequenceConfined(groups[0], counter, loops);
      var g := GroupsStep(groups[1..], switchBlock, f.next.counter, loops, Some(f.next.block));
      GroupsAttached(groups[1..], switchBlock, f.next.counter, loops, Some(f.next.block));
      AttachedThen(f, g, hubs, {switchBlock, f.next.block}, {}, counter, loops);
    }
  }

  lemma {:induction false} StepConfined(s: Stmt, p: Pos, loops: seq<LoopFrame>)
    requires Placed(p)
    ensures Confined(Step(s, p, loops), p, loops)
    decreases Size(s), 0
  {
    match s
    case Compound(_, ss) => CompoundStepConfined(s, p, loops);
    case If(_, _, _) => IfStepConfined(s, p, loops, IfStep(s, p, loops));
    case Loop(_, _, _) => LoopStepConfined(s, p, loops, LoopStep(s, p, loops));
    case Switch(_, _) => SwitchStepConfined(s, p, loops, SwitchStep(s, p, loops));
    case _ => SimpleStepConfined(s, p, loops);
  }

  lemma SimpleStepConfined(s: Stmt, p: Pos, loops: seq<LoopFrame>)
    requires Placed(p) && !s.Compound? && !s.If? && !s.Loop? && !s.Switch?
    ensures Confined(Step(s, p, loops), p, loops)
  {
    var f := Step(s, p, loops);
    ExitIsExit(loops);
    if f.next.block != p.block && !s.Label? {
      PlacedAtNowhere(f.places, f.next.block);
    }
  }

  lemma {:induction false} CompoundStepConfined(s: Stmt, p: Pos, loops: seq<LoopFrame>)
    requires s.Compound? && Placed(p)
    ensures Confined(CompoundStep(s, p, loops), p, loops)
    decreases SizeAll(s.children), 3
  {
    var f := CompoundStep(s, p, loops);
    SequenceConfined(s.children, p.counter, loops);
    PlacedAtNowhere(f.places, f.next.block);
  }

  /** A statement that ends in the fresh, still empty block `p.counter + k`. */
  lemma ResumeConfined(f: Frag, p: Pos, end: int, loops: seq<LoopFrame>)
    requires Placed(p) && p.counter < end <= f.next.counter
    requires forall e :: e in f.edges ==>
               && InRegion(e.source, p, f.next) && e.source != end
               && (InRegion(e.target, p, f.next) || e.target in Exits(loops))
    requires forall a :: a in f.places ==> InRegion(a.block, p, f.next) && a.block != end
    requires forall l :: l in f.labels ==> InRegion(l.block, p, f.next)
    requires forall g :: g in f.gotos ==> InRegion(g.block, p, f.next) && g.block != end
    ensures Confined(f.Resume(Pos(end, 0, f.next.counter)), p, loops)
  {
    PlacedAtNowhere(f.places, end);
  }

  lemma IfShapeConfined(id: NodeId, p: Pos, t: Frag, e: Frag, loops: seq<LoopFrame>)
    requires Placed(p)
    requires Attached(t, {p.block}, {p.counter + 1}, p.counter + 1, loops)
    requires Attached(e, {p.block}, {p.counter + 1}, t.next.counter, loops)
    ensures Confined(IfShape(id, p, t, e), p, loops)
  {
    ResumeConfined(Put(id, p).Then(t).Then(e), p, p.counter + 1, loops);
  }

  lemma {:induction false} IfStepConfined(s: Stmt, p: Pos, loops: seq<LoopFrame>, f: Frag)
    requires s.If? && Placed(p) && f == IfStep(s, p, loops)
    ensures Confined(f, p, loops)
    decreases OptionSize(s.thenBranch) + OptionSize(s.elseBranch), 4
  {
    hide BranchStep, Confined, IfShape;
    var join := p.counter + 1;
    BranchAttached(s.thenBranch, p.block, join, join, TrueBranch, loops);
    var t := BranchStep(s.thenBranch, p.block, join, join, TrueBranch, loops);
    BranchAttached(s.elseBranch, p.block, join, t.next.counter, FalseBranch, loops);
    var e := BranchStep(s.elseBranch, p.block, join, t.next.counter, FalseBranch, loops);
    assert f == IfShape(s.id, p, t, e);
    IfShapeConfined(s.id, p, t, e, loops);
  }

  lemma LoopShapeConfined(id: NodeId, p: Pos, f: Frag, loops: seq<LoopFrame>)
    requires Placed(p)
    requires Attached(f, {p.counter + 1}, {p.counter + 1}, p.counter + 2, loops + [LoopFrame(p.counter + 1, p.counter + 2)])
    ensures Confined(LoopShape(id, p, f), p, loops)
  {
    var header, after := p.counter + 1, p.counter + 2;
    ExitsOfInner(loops, LoopFrame(header, after));
    ResumeConfined(LoopShape(id, p, f).(next := f.next), p, after, loops);
  }

  lemma {:induction false} LoopStepConfined(s: Stmt, p: Pos, loops: seq<LoopFrame>, f: Frag)
    requires s.Loop? && Placed(p) && f == LoopStep(s, p, loops)
    ensures Confined(f, p, loops)
    decreases OptionSize(s.body), 4
  {
    hide LoopBodyStep, Confined, LoopShape;
    var header, after := p.counter + 1, p.counter + 2;
    var inner := loops + [LoopFrame(header, after)];
    var kind := if s.kind.Do? then Fallthrough else TrueBranch;
    LoopBodyAttached(s.body, header, after, kind, inner);
    LoopShapeConfined(s.id, p, LoopBodyStep(s.body, header, after, kind, inner), loops);
  }

  lemma SwitchShapeConfined(id: NodeId, p: Pos, f: Frag, more: seq<Edge>, loops: seq<LoopFrame>)
    requires Placed(p)
    requires Attached(f, {p.block}, {}, p.counter + 1, loops + [LoopFrame(p.block, p.counter + 1)])
    requires forall e :: e in more ==>
               && (e.source == p.block || p.counter + 1 < e.source <= f.next.counter)
               && e.target == p.counter + 1
    ensures Confined(SwitchShape(id, p, f, more), p, loops)
  {
    ExitsOfInner(loops, LoopFrame(p.block, p.counter + 1));
    ResumeConfined(Put(id, p).Then(f).Wire(more), p, p.counter + 1, loops);
  }

  lemma {:induction false} SwitchStepConfined(s: Stmt, p: Pos, loops: seq<LoopFrame>, f: Frag)
    requires s.Switch? && Placed(p) && f == SwitchStep(s, p, loops)
    ensures Confined(f, p, loops)
    decreases OptionSize(s.compound), 4
  {
    hide GroupsStep, Confined, SwitchShape;
    var after := p.counter + 1;
    if s.compound.Some? && s.compound.value.Compound? {
      assert Size(s.compound.value) == 1 + SizeAll(s.compound.value.children);
      CaseGroupsConfined(CaseGroups(s.compound.value.children), s.id, p, loops, f);
    } else {
      assert f == SwitchShape(s.id, p, Nothing(Pos(after, 0, after)), [Edge(p.block, after, Fallthrough)]);
      SwitchShapeConfined(s.id, p, Nothing(Pos(after, 0, after)), [Edge(p.block, after, Fallthrough)], loops);
    }
  }

  lemma CaseGroupsConfined(groups: seq<seq<Stmt>>, id: NodeId, p: Pos, loops: seq<LoopFrame>, f: Frag)
    requires forall g: seq<Stmt> :: g in groups ==> |g| > 0 && g[0].Case?
    requires Placed(p)
    requires var g := GroupsStep(groups, p.block, p.counter + 1, loops + [LoopFrame(p.block, p.counter + 1)], None);
             f == SwitchShape(id, p, g, SwitchExits(p.block, p.counter + 1, groups, g.next.block))
    ensures Confined(f, p, loops)
    decreases SizeGroups(groups), 5
  {
    hide GroupsStep, Confined, SwitchShape, HasDefault;
    var after := p.counter + 1;
    var inner := loops + [LoopFrame(p.block, after)];
    var g := GroupsStep(groups, p.block, after, inner, None);
    GroupsAttached(groups, p.block, after, inner, None);
    assert {p.block} + {} == {p.block};
    SwitchShapeConfined(id, p, g, SwitchExits(p.block, after, groups, g.next.block), loops);
  }
}
